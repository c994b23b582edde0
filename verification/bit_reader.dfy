/** The buffered reader of the bit stream. */
module BitReading {
  import opened Words
  import opened Wrappers
  import opened Varint
  import opened Bstream

  // ---- Word-level facts ------------------------------------------------------

  /** The top `n` of the `v` valid bits of a buffer. */
  lemma TakeTop(buffer: nat, v: nat, n: nat)
    requires n <= v
    ensures FromBits(ToBits(buffer, v)[..n]) == And(Shr(buffer, v - n), Pow2(n) - 1)
    ensures ToBits(buffer, v)[n..] == ToBits(buffer, v - n)
  {
    hide *;
    assert n + (v - n) == v;
    ToBitsSplit(buffer, n, v - n);
    FromToBits(Shr(buffer, v - n), n);
    AndMask(Shr(buffer, v - n), n);
  }

  lemma OneBit(buffer: nat, v: nat)
    ensures ToBits(buffer, v + 1) == [And(buffer, Pow2(v)) != 0] + ToBits(buffer, v)
  {
    AndBit(buffer, v);
    assert ToBits(Shr(buffer, v), 1) == [Shr(buffer, v) % 2 == 1];
    hide *;
    assert 1 + v == v + 1;
    ToBitsSplit(buffer, 1, v);
  }

  lemma AndOnes(x: nat, k: nat)
    requires k <= 64
    ensures And(x, Pow2(k) - 1) < Pow2(k) && (k <= 64 ==> And(x, Pow2(k) - 1) < TWO64)
  {
    AndMask(x, k);
    LowMod(x, k);
    Pow2Values();
    Pow2Mono(k, 64);
  }

  /** Joining the `v` low bits of one load with `r` bits of the next. */
  lemma JoinLoads(buffer: nat, v: nat, rest: Bits, r: nat, hi: nat)
    requires v + r <= 64 && r <= |rest| && hi == FromBits(rest[..r])
    ensures hi < Pow2(r)
    ensures FromBits((ToBits(buffer, v) + rest)[..v + r])
         == Or(Shl(And(buffer, Pow2(v) - 1), r, 64), hi)
  {
    Pow2Values();
    hide *;
    AndMask(buffer, v);
    FromToBits(buffer, v);
    FromBitsBound(rest[..r]);
    LowMod(buffer, v);
    var lo := Low(buffer, v);
    ScaleBound(lo, r, v);
    Pow2Mono(v + r, 64);
    LowSmall(Scale(lo, r), 64);
    ShlIs(lo, r);
    OrDisjoint(lo, r, hi);
    PrefixOfConcat(ToBits(buffer, v), rest, r);
    FromBitsConcat(ToBits(buffer, v), rest[..r]);
    assert |rest[..r]| == r;
  }

  lemma ShlIs(x: nat, k: nat)
    ensures Shl(x, k, 64) == Low(Scale(x, k), 64)
  {
  }

  /** Or-ing the next byte of a big-endian load into place. */
  lemma PlaceByte(a: nat, w: byte, m: nat, l: nat)
    requires l < Pow2(m)
    ensures Or(Scale(a, m + 8) + l, Scale(w, m)) == Scale(256 * a + w, m) + l
  {
    ScaleEight(a);
    hide *;
    ScaleBound(w, m, 8);
    assert 8 + m == m + 8;
    OrDisjoint(a, m + 8, l);
    Pow2Mono(m, m + 8);
    OrDisjoint(w, m, l);
    OrComm(Scale(w, m), l);
    OrAssoc(Scale(a, m + 8), l, Scale(w, m));
    OrDisjoint(a, m + 8, Scale(w, m) + l);
    ScaleScale(a, 8, m);
    ScaleAdd(256 * a, w, m);
  }

  lemma BeValueSnoc(s: seq<byte>, b: byte)
    ensures BeValue(s + [b]) == 256 * BeValue(s) + b
  {
    assert (s + [b])[..|s|] == s;
  }

  lemma BytesBitsSlice(s: seq<byte>, i: nat, j: nat)
    requires i <= j <= |s|
    ensures BytesBits(s[i..]) == BytesBits(s[i..j]) + BytesBits(s[j..])
  {
    hide *;
    BytesBitsConcat(s[i..j], s[j..]);
    assert s[i..] == s[i..j] + s[j..];
  }

  // ---- Unsigned varints over bits --------------------------------------------

  /** What a varint read yields on a bit list: the value and the bits left. */
  function BitUvarint(bits: Bits, i: nat): (r: Result<(nat, Bits), ReadError>)
    requires i <= MAX_VARINT_LEN64
    decreases MAX_VARINT_LEN64 - i
  {
    if i == MAX_VARINT_LEN64 then Err(VarintOverflow)
    else if |bits| < 8 then Err(EndOfStream)
    else
      var b := FromBits(bits[..8]);
      if b < 0x80 then
        if i == MAX_VARINT_LEN64 - 1 && b > 1 then Err(VarintOverflow) else Ok((b, bits[8..]))
      else Prepend(b, BitUvarint(bits[8..], i + 1))
  }

  /** A continuation byte contributes its group below the value of what follows. */
  function Prepend(b: nat, r: Result<(nat, Bits), ReadError>): Result<(nat, Bits), ReadError> {
    match r
    case Ok((v, rest)) => Ok((b % 0x80 + 0x80 * v, rest))
    case Err(e) => Err(e)
  }

  lemma FirstByte(b: byte, bs: seq<byte>, tail: Bits)
    ensures var bits := BytesBits([b] + bs) + tail;
      |bits| >= 8 && FromBits(bits[..8]) == b && bits[8..] == BytesBits(bs) + tail
  {
    BytesBitsCons(b, bs);
    ByteFromBits(b);
    hide *;
    assert (BytesBits([b] + bs) + tail)[..8] == ToBits(b, 8);
  }

  lemma ByteFromBits(b: byte)
    ensures FromBits(ToBits(b, 8)) == b
  {
    assert Pow2(8) == 256;
    hide *;
    FromToBits(b, 8);
    LowSmall(b, 8);
  }

  /** Reading back a code written byte by byte, whatever follows it. */
  lemma {:induction false} BitUvarintRoundTrip(x: nat, tail: Bits, i: nat)
    requires i + |Uvarint(x)| <= MAX_VARINT_LEN64
    requires i + |Uvarint(x)| == MAX_VARINT_LEN64 ==> Uvarint(x)[|Uvarint(x)| - 1] <= 1
    ensures BitUvarint(BytesBits(Uvarint(x)) + tail, i) == Ok((x, tail))
    decreases x
  {
    if x < 0x80 {
      FirstByte(x, [], tail);
      assert [x] + [] == Uvarint(x);
      assert BytesBits([]) + tail == tail;
    } else {
      BitUvarintRoundTrip(x / 0x80, tail, i + 1);
      GroupStep(x, tail, i);
    }
  }

  lemma GroupStep(x: nat, tail: Bits, i: nat)
    requires x >= 0x80 && i < MAX_VARINT_LEN64
    requires BitUvarint(BytesBits(Uvarint(x / 0x80)) + tail, i + 1) == Ok((x / 0x80, tail))
    ensures BitUvarint(BytesBits(Uvarint(x)) + tail, i) == Ok((x, tail))
  {
    hide BitUvarint, FromBits, BytesBits;
    var b, s := x % 0x80 + 0x80, Uvarint(x / 0x80);
    assert Uvarint(x) == [b] + s;
    hide Uvarint;
    assert b % 0x80 + 0x80 * (x / 0x80) == x && b >= 0x80;
    FirstByte(b, s, tail);
    GroupUnfold(BytesBits([b] + s) + tail, b, i);
  }

  lemma GroupUnfold(bits: Bits, b: byte, i: nat)
    requires i < MAX_VARINT_LEN64 && |bits| >= 8 && FromBits(bits[..8]) == b >= 0x80
    ensures BitUvarint(bits, i) == Prepend(b, BitUvarint(bits[8..], i + 1))
  {
    hide FromBits, Prepend;
  }

  /** A partially read varint: `x` is the value of the groups before position `i`. */
  function Resume(x: nat, i: nat, r: Result<(nat, Bits), ReadError>): Result<(nat, Bits), ReadError> {
    match r
    case Ok((v, rest)) => Ok((x + Scale(v, 7 * i), rest))
    case Err(e) => Err(e)
  }

  /** One continuation group of the reading loop. */
  lemma ResumeStep(x: nat, i: nat, b: byte, bits: Bits)
    requires i < 9 && x < Pow2(7 * i)
    requires |bits| >= 8 && FromBits(bits[..8]) == b >= 0x80
    ensures Or(x, Shl(And(b, 0x7F), 7 * i, 64)) < Pow2(7 * (i + 1))
    ensures Resume(x, i, BitUvarint(bits, i))
         == Resume(Or(x, Shl(And(b, 0x7F), 7 * i, 64)), i + 1, BitUvarint(bits[8..], i + 1))
  {
    var g := b % 0x80;
    assert Pow2(7) == 0x80;
    hide *;
    ShiftedGroup(x, b, i);
    ScaleBound(g, 7 * i, 7);
    assert 7 + 7 * i == 7 * (i + 1);
    GroupUnfold(bits, b, i);
    ResumePrepend(x, i, b, BitUvarint(bits[8..], i + 1), Or(x, Shl(And(b, 0x7F), 7 * i, 64)));
  }

  lemma ResumePrepend(x: nat, i: nat, b: nat, r: Result<(nat, Bits), ReadError>, x': nat)
    requires x' == x + Scale(b % 0x80, 7 * i)
    ensures Resume(x, i, Prepend(b, r)) == Resume(x', i + 1, r)
  {
    hide Scale;
    if r.Ok? {
      RegroupValue(x, b % 0x80, r.value.0, i);
    }
  }

  lemma RegroupValue(x: nat, g: nat, v: nat, i: nat)
    ensures x + Scale(g + 0x80 * v, 7 * i) == x + Scale(g, 7 * i) + Scale(v, 7 * (i + 1))
  {
    hide *;
    ScaleAdd(g, 0x80 * v, 7 * i);
    ScaleSeven(v);
    ScaleScale(v, 7, 7 * i);
    assert 7 + 7 * i == 7 * (i + 1);
  }

  lemma ResumeLast(x: nat, i: nat, b: byte, bits: Bits)
    requires i < MAX_VARINT_LEN64 && x < Pow2(7 * i) && (i == MAX_VARINT_LEN64 - 1 ==> b <= 1)
    requires |bits| >= 8 && FromBits(bits[..8]) == b < 0x80
    ensures Or(x, Shl(b, 7 * i, 64)) < TWO64
    ensures Resume(x, i, BitUvarint(bits, i)) == Ok((Or(x, Shl(b, 7 * i, 64)), bits[8..]))
  {
    hide FromBits, Pow2, Or, And, Shl, Scale;
    assert b % 0x80 == b;
    ShiftedGroup(x, b, i);
    GroupFits(x, b, i);
  }

  lemma Loaded(s: seq<byte>, i: nat, j: nat)
    requires i <= j <= |s| && j - i <= 8
    ensures BeValue(s[i..j]) < TWO64
    ensures BytesBits(s[i..]) == ToBits(BeValue(s[i..j]), 8 * (j - i)) + BytesBits(s[j..])
  {
    Pow2Values();
    hide BytesBits, ToBits, BeValue, Pow2;
    BytesBitsSlice(s, i, j);
    BeValueBits(s[i..j]);
    Pow2Mono(8 * (j - i), 64);
  }

  /** The slow load: the last byte of the stream comes from the cached copy. */
  method PackTail(stream: seq<byte>, offset: nat, nbytes: nat, last: byte) returns (b: nat)
    requires 0 < nbytes && offset + nbytes <= |stream|
    requires offset + nbytes == |stream| ==> last == stream[|stream| - 1]
    ensures b == BeValue(stream[offset..offset + nbytes])
  {
    hide BeValue, Scale, Or;
    ghost var loaded := stream[offset..offset + nbytes];
    var skip := 0;
    b := 0;
    if offset + nbytes == |stream| {
      OrZero(last);
      b := Or(b, last);
      skip := 1;
    }
    EmptyLoad(b);
    for i := 0 to nbytes - skip
      invariant b == Scale(BeValue(loaded[..i]), 8 * (nbytes - i)) + skip * last
    {
      LoadStep(loaded, i, nbytes, skip * last, skip);
      b := Or(b, Scale(stream[offset + i], 8 * (nbytes - i - 1)));
    }
    LoadDone(loaded, skip, last);
  }

  // ---- BitReader -------------------------------------------------------------

  class BitReader {
    const stream: seq<byte>
    /** Next byte of the stream to load. */
    var offset: nat
    var buffer: nat
    /** Number of right-most bits of `buffer` not yet read. */
    var valid: nat
    /** Copy of the last byte, taken when the reader was made. */
    const last: byte

    ghost predicate Valid()
      reads this
    {
      && offset <= |stream| && valid <= 64 && buffer < TWO64
      && (stream != [] ==> last == stream[|stream| - 1])
    }

    /** The bits still to be read. */
    ghost function Remaining(): (s: Bits)
      requires Valid()
      reads this
      ensures |s| == valid + 8 * (|stream| - offset)
    {
      ToBits(buffer, valid) + BytesBits(stream[offset..])
    }

    constructor (bytes: seq<byte>)
      ensures Valid() && stream == bytes
      ensures Remaining() == BytesBits(bytes)
      ensures offset == 0 && valid == 0
    {
      stream, offset, buffer, valid := bytes, 0, 0, 0;
      last := if bytes == [] then 0 else bytes[|bytes| - 1];
      new;
      assert stream[0..] == bytes;
    }

    predicate AtEnd()
      requires Valid()
      reads this
      ensures AtEnd() <==> Remaining() == []
    {
      offset >= |stream| && valid == 0
    }

    /** Refills an empty buffer: eight bytes when more than eight are left, otherwise just the
        bytes that `nbits` needs. */
    method LoadNextBuffer(nbits: nat) returns (ok: bool)
      requires Valid() && valid == 0 && 0 < nbits <= 64
      modifies this
      ensures Valid()
      ensures ok <==> old(offset) < |stream|
      ensures Remaining() == old(Remaining())
      ensures ok ==> offset > old(offset) && (nbits <= valid || offset == |stream|)
      ensures !ok ==> offset == old(offset) && valid == 0
    {
      hide ToBits, BytesBits, BeValue, Scale, Or, Pow2;
      if offset >= |stream| {
        return false;
      }
      if offset + 8 < |stream| {
        Loaded(stream, offset, offset + 8);
        NoBits(buffer);
        buffer := BeValue(stream[offset..offset + 8]);
        offset := offset + 8;
        valid := 64;
        return true;
      }
      var nbytes := nbits / 8 + 1;
      var remaining := |stream| - offset;
      if nbytes > remaining {
        nbytes := remaining;
      }
      var b := PackTail(stream, offset, nbytes, last);
      Loaded(stream, offset, offset + nbytes);
      NoBits(buffer);
      buffer := b;
      offset := offset + nbytes;
      valid := nbytes * 8;
      return true;
    }

    method ReadBit() returns (r: Result<bool, ReadError>)
      requires Valid()
      modifies this
      ensures Valid()
      ensures old(Remaining()) == [] ==> r == Err(EndOfStream) && Remaining() == []
      ensures old(Remaining()) != [] ==>
        r == Ok(old(Remaining())[0]) && Remaining() == old(Remaining())[1..]
    {
      hide ToBits, BytesBits, And, Pow2;
      if valid == 0 {
        var ok := LoadNextBuffer(1);
        if !ok {
          return Err(EndOfStream);
        }
      }
      OneBit(buffer, valid - 1);
      valid := valid - 1;
      return Ok(And(buffer, Pow2(valid)) != 0);
    }

    /** A read that starts inside the buffer and whose refill finds some bytes, but too few: the
        source then shifts by a negative amount. */
    predicate RefillFallsShort(nbits: nat)
      reads this
    {
      0 < valid < nbits && 0 < 8 * (|stream| - offset) < nbits - valid
    }

    /** Reads `nbits` bits. */
    method ReadBits(nbits: nat) returns (r: Result<u64, ReadError>)
      requires Valid() && nbits <= 64
      modifies this
      ensures Valid()
      ensures r.Ok? <==> nbits <= |old(Remaining())|
      ensures r.Ok? ==> r.value == FromBits(old(Remaining())[..nbits]) && Remaining() == old(Remaining())[nbits..]
      ensures r.Err? ==> r.error == if old(RefillFallsShort(nbits)) then Unspecified else EndOfStream
    {
      hide ToBits, BytesBits, And, Or, Shl, Shr, FromBits, Pow2;
      if nbits == 0 {
        NoValue(Remaining());
        return Ok(0);
      }
      if valid == 0 {
        var ok := LoadNextBuffer(nbits);
        if !ok {
          return Err(EndOfStream);
        }
      }
      if nbits <= valid {
        var v := TakeBits(nbits);
        return Ok(v);
      }
      ghost var all, first := Remaining(), ToBits(buffer, valid);
      AndOnes(buffer, valid);
      var low := And(buffer, Pow2(valid) - 1);
      var remaining := nbits - valid;
      ghost var start, b0 := valid, buffer;
      valid := 0;
      NoBits(buffer);
      ghost var rest := Remaining();
      assert all == first + rest;
      var ok := LoadNextBuffer(remaining);
      if !ok {
        return Err(EndOfStream);
      }
      if valid < remaining {
        return Err(Unspecified);
      }
      var hi := TakeBits(remaining);
      JoinLoads(b0, start, rest, remaining, hi);
      JoinBound(first, rest, remaining);
      return Ok(Or(Shl(low, remaining, 64), hi));
    }

    /** Takes bits that the buffer has. */
    method TakeBits(nbits: nat) returns (v: u64)
      requires Valid() && 0 < nbits <= valid
      modifies this`valid
      ensures Valid() && valid == old(valid) - nbits
      ensures nbits <= |old(Remaining())| && v == FromBits(old(Remaining())[..nbits]) && Remaining() == old(Remaining())[nbits..]
    {
      hide ToBits, BytesBits, And, Shr, FromBits, Pow2;
      TakeTop(buffer, valid, nbits);
      AndOnes(Shr(buffer, valid - nbits), nbits);
      PrefixOfPrefix(ToBits(buffer, valid), BytesBits(stream[offset..]), nbits);
      FromBitsBound(ToBits(buffer, valid)[..nbits]);
      Pow2Mono(nbits, 64);
      Pow2Values();
      valid := valid - nbits;
      v := And(Shr(buffer, valid), Pow2(nbits) - 1);
    }

    method ReadByte() returns (r: Result<byte, ReadError>)
      requires Valid()
      modifies this
      ensures Valid()
      ensures r.Ok? <==> 8 <= |old(Remaining())|
      ensures r.Ok? ==> r.value == FromBits(old(Remaining())[..8]) && Remaining() == old(Remaining())[8..]
      ensures r.Err? ==> r.error == EndOfStream
    {
      var v := ReadBits(8);
      if v.Err? {
        return Err(v.error);
      }
      FromBitsBound(old(Remaining())[..8]);
      assert Pow2(8) == 256;
      return Ok(v.value);
    }

    /** Reads a LEB128 code. */
    method ReadUvarint() returns (r: Result<u64, ReadError>)
      requires Valid()
      modifies this
      ensures Valid()
      ensures BitUvarint(old(Remaining()), 0).Ok? ==>
        r == Ok(BitUvarint(old(Remaining()), 0).value.0) && Remaining() == BitUvarint(old(Remaining()), 0).value.1
      ensures BitUvarint(old(Remaining()), 0).Err? ==> r == Err(BitUvarint(old(Remaining()), 0).error)
    {
      hide FromBits, Or, And, Shl, Scale, ToBits, BytesBits;
      ghost var goal := BitUvarint(Remaining(), 0);
      var x: nat, s := 0, 0;
      ResumeStart(goal);
      assert Pow2(0) == 1;
      for i := 0 to MAX_VARINT_LEN64
        invariant Valid() && s == 7 * i
        invariant i < MAX_VARINT_LEN64 ==> x < Pow2(7 * i) && Resume(x, i, BitUvarint(Remaining(), i)) == goal
        invariant i == MAX_VARINT_LEN64 ==> goal == Err(VarintOverflow)
      {
        ghost var bits := Remaining();
        var b := ReadByte();
        if b.Err? {
          return Err(b.error);
        }
        if b.value < 0x80 {
          if i == MAX_VARINT_LEN64 - 1 && b.value > 1 {
            return Err(VarintOverflow);
          }
          ResumeLast(x, i, b.value, bits);
          return Ok(Or(x, Shl(b.value, s, 64)));
        }
        if i < MAX_VARINT_LEN64 - 1 {
          ResumeStep(x, i, b.value, bits);
        }
        x := Or(x, Shl(And(b.value, 0x7F), s, 64));
        s := s + 7;
      }
      return Err(VarintOverflow);
    }

    method ReadVarint() returns (r: Result<i64, ReadError>)
      requires Valid()
      modifies this
      ensures Valid()
      ensures BitUvarint(old(Remaining()), 0).Ok? ==>
        && BitUvarint(old(Remaining()), 0).value.0 < TWO64
        && r == Ok(UnZigZag(BitUvarint(old(Remaining()), 0).value.0))
        && Remaining() == BitUvarint(old(Remaining()), 0).value.1
      ensures BitUvarint(old(Remaining()), 0).Err? ==> r == Err(BitUvarint(old(Remaining()), 0).error)
    {
      var u := ReadUvarint();
      if u.Err? {
        return Err(u.error);
      }
      var x: int := Shr(u.value, 1);
      assert Shr(u.value / 2, 0) == u.value / 2;
      if u.value % 2 != 0 {
        x := -x - 1;
      }
      return Ok(x);
    }
  }

  lemma ResumeStart(r: Result<(nat, Bits), ReadError>)
    ensures Resume(0, 0, r) == r
  {
  }

  lemma JoinBound(first: Bits, rest: Bits, r: nat)
    requires |first| + r <= 64 && r <= |rest|
    ensures FromBits((first + rest)[..|first| + r]) < TWO64
    ensures (first + rest)[|first| + r..] == rest[r..]
  {
    FromBitsBound((first + rest)[..|first| + r]);
    Pow2Mono(|first| + r, 64);
    Pow2Values();
  }

  lemma NoBits(x: nat)
    ensures ToBits(x, 0) == []
  {
  }

  lemma NoValue(s: Bits)
    ensures FromBits(s[..0]) == 0 && s[0..] == s
  {
  }

  lemma EmptyLoad(b: nat)
    ensures forall m: nat :: Scale(BeValue([]), m) == 0
  {
    forall m: nat
      ensures Scale(BeValue([]), m) == 0
    {
      ScaleZero(m);
    }
  }

  lemma LoadStep(loaded: seq<byte>, i: nat, nbytes: nat, l: nat, skip: nat)
    requires nbytes == |loaded| && i + skip < nbytes && skip <= 1
    requires l < 256 && (skip == 0 ==> l == 0)
    ensures Or(Scale(BeValue(loaded[..i]), 8 * (nbytes - i)) + l, Scale(loaded[i], 8 * (nbytes - i - 1)))
         == Scale(BeValue(loaded[..i + 1]), 8 * (nbytes - (i + 1))) + l
  {
    assert Pow2(8) == 256 && Pow2(0) == 1;
    hide *;
    var m := 8 * (nbytes - i - 1);
    if skip == 1 {
      Pow2Mono(8, m);
    } else {
      Pow2Mono(0, m);
    }
    assert loaded[..i + 1] == loaded[..i] + [loaded[i]];
    BeValueSnoc(loaded[..i], loaded[i]);
    assert m + 8 == 8 * (nbytes - i);
    PlaceByte(BeValue(loaded[..i]), loaded[i], m, l);
  }

  lemma LoadDone(loaded: seq<byte>, skip: nat, last: byte)
    requires loaded != [] && skip <= 1 && (skip == 1 ==> last == loaded[|loaded| - 1])
    ensures Scale(BeValue(loaded[..|loaded| - skip]), 8 * skip) + skip * last == BeValue(loaded)
  {
    var n := |loaded| - 1;
    if skip == 0 {
      assert loaded[..|loaded|] == loaded;
    } else {
      ScaleEight(BeValue(loaded[..n]));
      BeValueSnoc(loaded[..n], loaded[n]);
      assert loaded == loaded[..n] + [loaded[n]];
    }
  }
}
