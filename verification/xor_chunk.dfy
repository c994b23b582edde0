/** The chunk, its appender and its iterator, proved against the code of one sample. */
module XorChunks {
  import opened Words
  import opened Wrappers
  import opened Varint
  import opened Bstream
  import opened BitReading
  import opened XorCode

  const HEADER_SIZE := 2
  const MAX_SAMPLES := 0xFFFF

  // ---- Chunk bytes -----------------------------------------------------------

  function Header(n: nat): (h: seq<byte>)
    requires n <= MAX_SAMPLES
    ensures |h| == HEADER_SIZE && BeValue(h) == n
  {
    BeValueSnoc([], n / 256);
    BeValueSnoc([n / 256], n % 256);
    assert [] + [n / 256] == [n / 256] && [n / 256] + [n % 256] == [n / 256, n % 256];
    [n / 256, n % 256]
  }

  /** The bytes of a chunk with this history. */
  function ChunkBytes(ops: seq<Op>): (bs: seq<byte>)
    requires |Encode(ops).samples| <= MAX_SAMPLES
  {
    Header(|Encode(ops).samples|) + Pack(Encode(ops).bits)
  }

  /** Reading a chunk to its end. None stands for a malformed chunk. */
  function DecodeChunk(bytes: seq<byte>): Option<seq<Sample>> {
    if |bytes| < HEADER_SIZE then Some([])
    else
      match DecRun(BeValue(bytes[..HEADER_SIZE]), BytesBits(bytes[HEADER_SIZE..]))
      case Some((ss, _, _)) => Some(ss)
      case None => None
  }

  /** The bytes of a chunk decode to exactly the samples appended to it. */
  lemma ChunkBytesDecode(ops: seq<Op>)
    requires |Encode(ops).samples| <= MAX_SAMPLES && Legible(ops)
    ensures DecodeChunk(ChunkBytes(ops)) == Some(Encode(ops).samples)
  {
    hide Pack, DecRun, Encode, BytesBits, BeValue, DecoderOf;
    var r := Encode(ops);
    var bs := ChunkBytes(ops);
    var h := Header(|r.samples|);
    assert bs[..HEADER_SIZE] == h && bs[HEADER_SIZE..] == Pack(r.bits);
    PackBits(r.bits);
    assert ReadsWith(ops, ToBits(0, 8 * |Pack(r.bits)| - |r.bits|));
  }

  lemma EncodeSnoc(ops: seq<Op>, op: Op)
    ensures var r := Encode(ops);
      Encode(ops + [op]) ==
        match op
        case Append(s) =>
          Trace(r.bits + EncSample(|r.samples|, r.codec, s), r.samples + [s], NextCodec(|r.samples|, r.codec, s))
        case Resume => if r.samples == [] then r else r.(codec := Follow(r.codec))
        case Reset => r.(bits := Filled(r.bits))
  {
    assert (ops + [op])[..|ops + [op]| - 1] == ops;
    hide EncSample, NextCodec;
  }

  // ---- Appender --------------------------------------------------------------

  /** The writer holds a chunk with history `ops`. */
  ghost predicate Holds(w: BitWriter, ops: seq<Op>)
    reads w
  {
    && w.Valid() && |w.Contents()| >= 16
    && |Encode(ops).samples| <= MAX_SAMPLES
    && w.stream[..HEADER_SIZE] == Header(|Encode(ops).samples|)
    && w.Contents()[16..] == Encode(ops).bits
  }

  /** A writer holding a chunk contains exactly the chunk's bytes. */
  lemma HeldBytes(w: BitWriter, ops: seq<Op>)
    requires Holds(w, ops)
    ensures w.stream == ChunkBytes(ops)
  {
    hide BytesBits, Pack, Encode, Low;
    var rest := w.stream[2..];
    assert w.stream == w.stream[..2] + rest;
    HeaderBits(w.stream, w.stream[..2]);
    assert w.Contents()[16..] == BytesBits(rest)[..8 * |rest| - w.count];
    if rest == [] {
      assert w.count == 0;
    }
    PackUnique(rest, w.count);
  }

  method PutUvarintViaWriter(w: BitWriter, x: u64)
    requires w.Valid()
    modifies w
    ensures w.Valid() && w.Contents() == old(w.Contents()) + BytesBits(Uvarint(x))
  {
    hide BytesBits, Uvarint, ToBits;
    var buf := new byte[MAX_VARINT_LEN64](_ => 0);
    var n := PutUvarint(buf, x);
    EmptyBits(w.Contents());
    for i := 0 to n
      invariant w.Valid() && buf[..n] == Uvarint(x)
      invariant w.Contents() == old(w.Contents()) + BytesBits(Uvarint(x)[..i])
    {
      assert Uvarint(x)[..i + 1] == Uvarint(x)[..i] + [buf[i]];
      BytesBitsSnoc(Uvarint(x)[..i], buf[i]);
      w.WriteByte(buf[i]);
    }
    assert Uvarint(x)[..n] == Uvarint(x);
  }

  lemma EmptyBits(s: Bits)
    ensures s == s + BytesBits([])
  {
  }

  method PutVarintViaWriter(w: BitWriter, x: i64)
    requires w.Valid()
    modifies w
    ensures w.Valid() && w.Contents() == old(w.Contents()) + BytesBits(ZigZagVarint(x))
  {
    hide BytesBits, Uvarint, ToBits;
    var buf := new byte[MAX_VARINT_LEN64](_ => 0);
    var n := PutVarint(buf, x);
    EmptyBits(w.Contents());
    for i := 0 to n
      invariant w.Valid() && buf[..n] == ZigZagVarint(x)
      invariant w.Contents() == old(w.Contents()) + BytesBits(ZigZagVarint(x)[..i])
    {
      assert ZigZagVarint(x)[..i + 1] == ZigZagVarint(x)[..i] + [buf[i]];
      BytesBitsSnoc(ZigZagVarint(x)[..i], buf[i]);
      w.WriteByte(buf[i]);
    }
    assert ZigZagVarint(x)[..n] == ZigZagVarint(x);
  }

  method XorWrite(w: BitWriter, newV: u64, prevV: u64, leading: nat, trailing: nat)
    returns (leading': nat, trailing': nat)
    requires w.Valid() && EncoderWindow(leading, trailing)
    modifies w
    ensures w.Valid()
    ensures w.Contents() == old(w.Contents()) + EncValue(DeltaOf(newV, prevV), leading, trailing)
    ensures leading' == NextLeading(DeltaOf(newV, prevV), leading, trailing)
    ensures trailing' == NextTrailing(DeltaOf(newV, prevV), leading, trailing)
  {
    hide ToBits, Shr, CountlZero, CountrZero, Low, Pow2, BytesBits, DeltaOf, FreshBits;
    leading', trailing' := leading, trailing;
    var delta := DeltaOf(newV, prevV);
    if delta == 0 {
      w.WriteBit(false);
      return;
    }
    w.WriteBit(true);
    var newLeading, newTrailing := CountlZero(delta), CountrZero(delta);
    if newLeading >= 32 {
      newLeading := 31;
    }
    ShrStays(delta, trailing);
    ShrStays(delta, newTrailing);
    FreshWindow(delta);
    if leading != NO_WINDOW && newLeading >= leading && newTrailing >= trailing {
      w.WriteBit(false);
      w.WriteBits(Shr(delta, trailing), 64 - leading - trailing);
      return;
    }
    leading', trailing' := newLeading, newTrailing;
    FreshParts(delta, leading, trailing);
    FreshShape(delta);
    WriteFresh(w, newLeading, newTrailing, Shr(delta, newTrailing));
    assert [true] + ([true] + ToBits(newLeading, 5) + ToBits(64 - newLeading - newTrailing, 6)
      + ToBits(Shr(delta, newTrailing), 64 - newLeading - newTrailing)) == EncValue(delta, leading, trailing);
  }

  /** A new window: its two counts, then the significant bits. */
  method WriteFresh(w: BitWriter, l: nat, t: nat, sig: u64)
    requires w.Valid() && Window(l, t)
    modifies w
    ensures w.Valid()
    ensures w.Contents() == old(w.Contents()) + ([true] + ToBits(l, 5) + ToBits(64 - l - t, 6) + ToBits(sig, 64 - l - t))
  {
    hide ToBits, BytesBits;
    w.WriteBit(true);
    w.WriteBits(l, 5);
    w.WriteBits(64 - l - t, 6);
    w.WriteBits(sig, 64 - l - t);
  }

  lemma {:induction false} ShrStays(x: u64, k: nat)
    ensures 0 <= Shr(x, k) < TWO64
    decreases k
  {
    if k > 0 {
      ShrStays(x / 2, k - 1);
    }
  }

  /** The two bytes that carry the '10' prefix and a 14-bit difference. */
  lemma FourteenBits(dod: i64)
    ensures var u := ToU64(dod);
      && Or(0x80, And(Shr(u, 8) % 256, 0x3F)) < 256
      && ToBits(Or(0x80, And(Shr(u, 8) % 256, 0x3F)), 8) + ToBits(u % 256, 8) == [true, false] + ToBits(u, 14)
  {
    var u := ToU64(dod);
    var y := Low(Shr(u, 8), 6);
    assert Pow2(6) == 64 && Pow2(8) == 256 && Pow2(7) == 128 && Scale(2, 6) == 128 && Scale(1, 7) == 128;
    assert ToBits(2, 2) == [true, false];
    hide ToBits, Low, Shr, Pow2, Scale, Or, And;
    LowMod(Shr(u, 8), 6);
    AndMask(Shr(u, 8) % 256, 6);
    LowOfLow(Shr(u, 8));
    OrDisjoint(1, 7, y);
    ToBitsJoin(2, y, 2, 6);
    ToBitsLow(Shr(u, 8), 6);
    ToBitsSplit(u, 6, 8);
    LowMod(u, 8);
    ToBitsLow(u, 8);
    ConcatAssoc([true, false], ToBits(y, 6), ToBits(u, 8));
  }

  lemma LowOfLow(x: nat)
    ensures Low(x % 256, 6) == Low(x, 6)
  {
    assert Pow2(6) == 64;
    hide *;
    LowMod(x % 256, 6);
    LowMod(x, 6);
    ModMod(x);
  }

  lemma ModMod(x: nat)
    ensures x % 256 % 64 == x % 64
  {
  }

  lemma PrefixBits()
    ensures ToBits(6, 3) == [true, true, false]
    ensures ToBits(14, 4) == [true, true, true, false]
    ensures ToBits(15, 4) == [true, true, true, true]
  {
    assert ToBits(3, 2) == [true, true];
    assert ToBits(7, 3) == [true, true, true];
  }

  /** The prefix-coded difference of differences. */
  method WriteDod(w: BitWriter, dod: i64)
    requires w.Valid()
    modifies w
    ensures w.Valid() && w.Contents() == old(w.Contents()) + EncDod(dod)
  {
    hide ToBits, Low, Shr, Pow2, Scale, Or, And, BytesBits, BitRange, FromBits;
    PrefixBits();
    FourteenBits(dod);
    var u := ToU64(dod);
    ghost var before := w.Contents();
    if dod == 0 {
      w.WriteBit(false);
    } else if BitRange(dod, 14) {
      w.WriteByte(Or(0x80, And(Shr(u, 8) % 256, 0x3F)));
      w.WriteByte(u % 256);
      ConcatAssoc(before, ToBits(Or(0x80, And(Shr(u, 8) % 256, 0x3F)), 8), ToBits(u % 256, 8));
    } else if BitRange(dod, 17) {
      w.WriteBits(6, 3);
      w.WriteBits(u, 17);
      ConcatAssoc(before, ToBits(6, 3), ToBits(u, 17));
    } else if BitRange(dod, 20) {
      w.WriteBits(14, 4);
      w.WriteBits(u, 20);
      ConcatAssoc(before, ToBits(14, 4), ToBits(u, 20));
    } else {
      w.WriteBits(15, 4);
      w.WriteBits(u, 64);
      ConcatAssoc(before, ToBits(15, 4), ToBits(u, 64));
    }
  }

  class XORAppender {
    const writer: BitWriter
    var t: i64
    var v: u64
    var tDelta: u64
    var leading: nat
    var trailing: nat
    /** History of the chunk the writer holds. */
    ghost var ops: seq<Op>

    ghost predicate Valid()
      reads this, writer
    {
      Holds(writer, ops) && State() == Encode(ops).codec
    }

    function State(): Codec
      reads this
    {
      Codec(t, v, tDelta, leading, trailing)
    }

    /** An appender for an empty chunk. */
    constructor (w: BitWriter, ghost history: seq<Op>)
      requires Holds(w, history) && Encode(history).samples == []
      ensures Valid() && writer == w && ops == history + [Resume]
    {
      writer := w;
      t, v, tDelta, leading, trailing := ENC_INIT.t, 0, 0, NO_WINDOW, 0;
      ops := history + [Resume];
      EncodeSnoc(history, Resume);
    }

    /** An appender in the state an iterator reached at the end of the chunk. */
    constructor Recovered(w: BitWriter, c: Codec, ghost history: seq<Op>)
      requires Holds(w, history) && Encode(history).samples != []
      requires c == Follow(Encode(history).codec)
      ensures Valid() && writer == w && ops == history + [Resume]
    {
      writer := w;
      t, v, tDelta, leading, trailing := c.t, c.v, c.tDelta, c.leading, c.trailing;
      ops := history + [Resume];
      EncodeSnoc(history, Resume);
    }

    /** Appends one sample; refuses exactly when the 16-bit sample count is exhausted. */
    method Append(t': i64, v': u64) returns (ok: bool)
      requires Valid()
      modifies this, writer
      ensures Valid()
      ensures ok <==> |old(Encode(ops).samples)| < 65535
      ensures ops == if ok then old(ops) + [Op.Append(Sample(t', v'))] else old(ops)
      ensures !ok ==> writer.stream == old(writer.stream) && writer.count == old(writer.count)
    {
      hide Encode, EncSample, NextCodec, EncValue, DeltaOf, EncDod, ToBits, BytesBits, Low, NextLeading, NextTrailing;
      ghost var r := Encode(ops);
      var num := BeValue(writer.stream[..2]);
      if num == MAX_SAMPLES {
        return false;
      }
      ghost var before := writer.Contents();
      var s := Sample(t', v');
      EncodeSnoc(ops, Op.Append(s));
      tDelta, leading, trailing := WriteSample(writer, num, State(), s);
      t, v := t', v';
      ConcatAssoc(before[..16], before[16..], EncSample(num, r.codec, s));
      var newNum := num + 1;
      writer.PatchHeader(newNum / 256, newNum % 256);
      ops := ops + [Op.Append(s)];
      assert writer.stream[..2] == Header(newNum);
      return true;
    }
  }

  /** The part of an append that depends on the sample number. */
  method WriteSample(w: BitWriter, num: nat, c: Codec, s: Sample)
    returns (tDelta: u64, leading: nat, trailing: nat)
    requires w.Valid() && EncoderWindow(c.leading, c.trailing)
    modifies w
    ensures w.Valid() && w.Contents() == old(w.Contents()) + EncSample(num, c, s)
    ensures NextCodec(num, c, s) == Codec(s.t, s.v, tDelta, leading, trailing)
  {
    hide EncSample, NextCodec, EncValue, DeltaOf, EncDod, ToBits, BytesBits, Low, NextLeading, NextTrailing, Uvarint;
    SampleParts(num, c, s);
    ghost var before := w.Contents();
    tDelta, leading, trailing := 0, c.leading, c.trailing;
    if num == 0 {
      PutVarintViaWriter(w, s.t);
      w.WriteBits(s.v, 64);
      ConcatAssoc(before, BytesBits(ZigZagVarint(s.t)), ToBits(s.v, 64));
    } else {
      tDelta := ToU64(s.t - c.t);
      ghost var value := EncValue(DeltaOf(s.v, c.v), c.leading, c.trailing);
      if num == 1 {
        PutUvarintViaWriter(w, tDelta);
        ConcatAssoc(before, BytesBits(Uvarint(tDelta)), value);
      } else {
        var dod := ToI64(tDelta - c.tDelta);
        WriteDod(w, dod);
        ConcatAssoc(before, EncDod(dod), value);
      }
      leading, trailing := XorWrite(w, s.v, c.v, leading, trailing);
    }
  }

  // ---- Iterator --------------------------------------------------------------

  /** The sample bits of a chunk. */
  function Payload(bytes: seq<byte>): Bits {
    if |bytes| < HEADER_SIZE then [] else BytesBits(bytes[HEADER_SIZE..])
  }

  function SampleCount(bytes: seq<byte>): (n: nat)
    ensures n <= MAX_SAMPLES
  {
    if |bytes| < HEADER_SIZE then 0
    else
      Pow2Values();
      BeValueBits(bytes[..HEADER_SIZE]);
      BeValue(bytes[..HEADER_SIZE])
  }

  /** Bytes whose header count matches the samples that can be read. */
  predicate WellFormed(bytes: seq<byte>) {
    DecRun(SampleCount(bytes), Payload(bytes)).Some?
  }

  lemma WellFormedDecodes(bytes: seq<byte>)
    ensures WellFormed(bytes) <==> DecodeChunk(bytes).Some?
    ensures WellFormed(bytes) ==> DecodeChunk(bytes).value == DecRun(SampleCount(bytes), Payload(bytes)).value.0
  {
    hide BytesBits, BeValue, DecSample;
  }

  class XORIterator {
    const bytes: seq<byte>
    const reader: BitReader
    const numTotal: nat
    var numRead: nat
    var t: i64
    var v: u64
    var tDelta: u64
    var leading: nat
    var trailing: nat
    var err: Option<ReadError>

    ghost predicate Valid()
      reads this, reader
    {
      && reader.Valid() && numRead <= numTotal == SampleCount(bytes)
      && DecRun(numRead, Payload(bytes)).Some?
      && (err.None? ==> InStep())
      && (err.Some? ==> (numRead < numTotal && DecRun(numRead + 1, Payload(bytes)).None?))
    }

    /** The state is the one that follows the samples read, and the reader stands behind them. */
    ghost predicate InStep()
      requires reader.Valid() && DecRun(numRead, Payload(bytes)).Some?
      reads this, reader
    {
      DecRun(numRead, Payload(bytes)).value.1 == State() && DecRun(numRead, Payload(bytes)).value.2 == reader.Remaining()
    }

    function State(): Codec
      reads this
    {
      Codec(t, v, tDelta, leading, trailing)
    }

    /** The samples returned so far. */
    ghost function Seen(): seq<Sample>
      requires Valid()
      reads this, reader
    {
      DecRun(numRead, Payload(bytes)).value.0
    }

    constructor (chunk: seq<byte>)
      ensures Valid() && bytes == chunk && numRead == 0 && err == None
      ensures fresh(reader)
    {
      hide DecSample, BytesBits;
      bytes := chunk;
      var rest: seq<byte> := if |chunk| >= HEADER_SIZE then chunk[HEADER_SIZE..] else [];
      reader := new BitReader(rest);
      numTotal := if |chunk| >= HEADER_SIZE then SampleCount(chunk) else 0;
      numRead, t, v, tDelta, leading, trailing, err := 0, 0, 0, 0, 0, 0, None;
      new;
      EmptyBits([]);
    }

    /** Moves to the next sample, or stops for good: at the end of the chunk, or with an error where
        its bytes hold no further sample. */
    method Next() returns (more: bool)
      requires Valid()
      modifies this, reader
      ensures Valid()
      ensures more <==> old(numRead) < numTotal && DecRun(old(numRead) + 1, Payload(bytes)).Some?
      ensures more ==> err == None && numRead == old(numRead) + 1 && Seen() == old(Seen()) + [Sample(t, v)]
      ensures !more ==> numRead == old(numRead) && Seen() == old(Seen()) && (err.Some? <==> numRead < numTotal)
      ensures old(numRead) == numTotal ==> State() == old(State())
    {
      hide DecRun, DecSample, BytesBits, SampleCount, Payload;
      if err.Some? || numRead == numTotal {
        return false;
      }
      RunUnfold(numRead, Payload(bytes));
      var c, e := ReadSample(reader, numRead, State());
      t, v, tDelta, leading, trailing := c.t, c.v, c.tDelta, c.leading, c.trailing;
      if e.Some? {
        err := e;
        return false;
      }
      numRead := numRead + 1;
      return true;
    }
  }

  /** The part of a step that depends on the sample number. After an error the state may have moved
      on in part, as the source's does. */
  method ReadSample(r: BitReader, num: nat, c: Codec) returns (c': Codec, err: Option<ReadError>)
    requires r.Valid() && Window(c.leading, c.trailing)
    modifies r
    ensures r.Valid()
    ensures match DecSample(num, c, old(r.Remaining()))
      case Some((d, rest)) => err == None && c' == d && r.Remaining() == rest
      case None => err.Some?
  {
    hide DecRest, BitUvarint, DecDod, FromBits, ToBits, BytesBits, Pow2, UnZigZag, DecValue;
    c', err := c, None;
    if num == 0 {
      var t := r.ReadVarint();
      if t.Err? {
        return c', Some(t.error);
      }
      var v := r.ReadBits(64);
      if v.Err? {
        return c', Some(v.error);
      }
      return c.(t := t.value, v := v.value), None;
    }
    var td: u64 := 0;
    if num == 1 {
      var d := r.ReadUvarint();
      if d.Err? {
        return c', Some(d.error);
      }
      td := d.value;
    } else {
      var dod, e := ReadDod(r);
      if e.Some? {
        return c', e;
      }
      td := ToU64(ToI64(c.tDelta) + dod);
    }
    RestUnfold(c, td, r.Remaining());
    var v, leading, trailing, e := XorRead(r, c.v, c.leading, c.trailing);
    return Codec(ToI64(c.t + ToI64(td)), v, td, leading, trailing), e;
  }

  lemma RunUnfold(k: nat, bits: Bits)
    requires DecRun(k, bits).Some?
    ensures var (ss, c, rest) := DecRun(k, bits).value;
      DecRun(k + 1, bits) == match DecSample(k, c, rest)
        case Some((c', rest')) => Some((ss + [Sample(c'.t, c'.v)], c', rest'))
        case None => None
  {
    hide DecSample;
  }

  lemma RestUnfold(c: Codec, td: u64, bits: Bits)
    requires Window(c.leading, c.trailing)
    ensures DecRest(c, td, bits) ==
      match DecValue(c.v, c.leading, c.trailing, bits)
      case Some((v, l, t, rest)) => Some((Codec(ToI64(c.t + ToI64(td)), v, td, l, t), rest))
      case None => None
  {
    hide DecValue;
  }

  /** How many bits a prefix has: ones up to the first zero, four at most. */
  function PrefixLength(bits: Bits): Option<nat> {
    if |bits| < 1 then None
    else if !bits[0] then Some(1)
    else if |bits| < 2 then None
    else if !bits[1] then Some(2)
    else if |bits| < 3 then None
    else if !bits[2] then Some(3)
    else if |bits| < 4 then None
    else Some(4)
  }

  /** Reads the prefix one bit at a time. */
  method ReadPrefix(r: BitReader) returns (prefix: nat, err: Option<ReadError>)
    requires r.Valid()
    modifies r
    ensures r.Valid()
    ensures var bits := old(r.Remaining());
      match PrefixLength(bits)
      case None => err.Some?
      case Some(i) =>
        && err == None && i <= |bits| && r.Remaining() == bits[i..]
        && prefix == if i == 1 then 0 else if i == 2 then 2 else if i == 3 then 6 else if bits[3] then 15 else 14
  {
    ghost var bits := r.Remaining();
    var i, stop := 0, false;
    prefix, err := 0, None;
    while i < 4 && !stop
      invariant r.Valid() && i <= 4 && err == None
      invariant !stop ==> i <= |bits| && (forall k :: 0 <= k < i ==> bits[k]) && r.Remaining() == bits[i..]
      invariant !stop ==> prefix == (if i == 0 then 0 else if i == 1 then 1 else if i == 2 then 3 else if i == 3 then 7 else 15)
      invariant stop ==> 0 < i <= |bits| && !bits[i - 1] && (forall k :: 0 <= k < i - 1 ==> bits[k]) && r.Remaining() == bits[i..]
      invariant stop ==> prefix == (if i == 1 then 0 else if i == 2 then 2 else if i == 3 then 6 else 14)
    {
      var bit := r.ReadBit();
      if bit.Err? {
        return 0, Some(bit.error);
      }
      prefix := 2 * prefix;
      i := i + 1;
      if !bit.value {
        stop := true;
      } else {
        prefix := prefix + 1;
      }
    }
  }

  /** The code by the length of its prefix. */
  lemma DodByPrefix(bits: Bits)
    ensures DecDod(bits) == match PrefixLength(bits)
      case None => None
      case Some(i) =>
        var rest := bits[i..];
        if i == 1 then Some((0, rest))
        else if i == 2 then DecFolded(14, rest)
        else if i == 3 then DecFolded(17, rest)
        else if !bits[3] then DecFolded(20, rest)
        else if |rest| < 64 then None
        else Some((ToI64(FromBits(rest[..64])), rest[64..]))
  {
    hide DecFolded, FromBits;
    if |bits| >= 68 {
      assert bits[4..][..64] == bits[4..68] && bits[4..][64..] == bits[68..];
    }
  }

  /** Reads a payload narrower than a word. */
  method ReadFolded(r: BitReader, width: nat) returns (dod: i64, err: Option<ReadError>)
    requires r.Valid() && 0 < width <= 20
    modifies r
    ensures r.Valid()
    ensures match DecFolded(width, old(r.Remaining()))
      case Some((d, rest)) => err == None && dod == d && r.Remaining() == rest
      case None => err.Some?
  {
    hide FromBits, SignExtend;
    ghost var rest := r.Remaining();
    var payload := r.ReadBits(width);
    if payload.Err? {
      return 0, Some(payload.error);
    }
    FromBitsBound(rest[..width]);
    FoldFits(payload.value, width);
    return SignExtend(payload.value, width), None;
  }

  /** Reads the prefix, then the payload it announces. */
  method ReadDod(r: BitReader) returns (dod: i64, err: Option<ReadError>)
    requires r.Valid()
    modifies r
    ensures r.Valid()
    ensures match DecDod(old(r.Remaining()))
      case Some((d, rest)) => err == None && dod == d && r.Remaining() == rest
      case None => err.Some?
  {
    hide FromBits, DecFolded, DecDod, PrefixLength;
    DodByPrefix(r.Remaining());
    dod := 0;
    var prefix;
    prefix, err := ReadPrefix(r);
    if err.Some? {
      return;
    }
    PrefixLengths(old(r.Remaining()));
    var width := 0;
    if prefix == 2 {
      width := 14;
    } else if prefix == 6 {
      width := 17;
    } else if prefix == 14 {
      width := 20;
    } else if prefix == 15 {
      var raw := r.ReadBits(64);
      if raw.Err? {
        return 0, Some(raw.error);
      }
      dod := ToI64(raw.value);
    }
    if width != 0 {
      dod, err := ReadFolded(r, width);
    }
  }

  lemma PrefixLengths(bits: Bits)
    ensures PrefixLength(bits).Some? ==> 1 <= PrefixLength(bits).value <= 4
  {
  }

  /** Reads one value; the window is updated only when a new one is sent. */
  method XorRead(r: BitReader, value: u64, leading: nat, trailing: nat)
    returns (value': u64, leading': nat, trailing': nat, err: Option<ReadError>)
    requires r.Valid() && Window(leading, trailing)
    modifies r
    ensures r.Valid()
    ensures match DecValue(value, leading, trailing, old(r.Remaining()))
      case Some((v, l, t, rest)) => err == None && value' == v && leading' == l && trailing' == t && r.Remaining() == rest
      case None => err.Some?
  {
    hide FromBits, ToBits, BytesBits, DecDelta;
    ghost var bits := r.Remaining();
    value', leading', trailing', err := value, leading, trailing, None;
    var bit := r.ReadBit();
    if bit.Err? {
      err := Some(bit.error);
      return;
    }
    if !bit.value {
      return;
    }
    bit := r.ReadBit();
    if bit.Err? {
      err := Some(bit.error);
      return;
    }
    assert bits[1..][1..] == bits[2..];
    var mbits := 64 - leading - trailing;
    if bit.value {
      leading', trailing', mbits, err := ReadWindow(r, value, leading, trailing, bits);
      if err.Some? {
        return;
      }
    }
    value', err := ReadDelta(r, value, leading', trailing', mbits);
  }

  /** The five and six bit fields of a fresh window; six zero bits stand for 64. A width that does
      not fit wraps around and leaves no window. */
  method ReadWindow(r: BitReader, value: u64, leading: nat, trailing: nat, ghost bits: Bits)
    returns (leading': nat, trailing': nat, mbits: nat, err: Option<ReadError>)
    requires r.Valid() && Window(leading, trailing) && |bits| >= 2 && bits[0] && bits[1]
    requires r.Remaining() == bits[2..]
    modifies r
    ensures r.Valid()
    ensures err.Some? ==> DecValue(value, leading, trailing, bits).None?
    ensures err.None? ==> leading' <= 31 && 0 < mbits <= 64 && trailing' == (64 - leading' - mbits) % 256
    ensures err.None? && leading' + mbits > 64 ==> DecValue(value, leading, trailing, bits).None?
    ensures err.None? && leading' + mbits <= 64 ==>
      DecValue(value, leading, trailing, bits) == DecDelta(value, leading', trailing', r.Remaining())
  {
    hide FromBits, ToBits, BytesBits, DecDelta;
    leading', trailing', mbits, err := leading, trailing, 64, None;
    var lz := r.ReadBits(5);
    if lz.Err? {
      err := Some(lz.error);
      return;
    }
    leading' := lz.value;
    var sb := r.ReadBits(6);
    if sb.Err? {
      err := Some(sb.error);
      return;
    }
    FieldSlices(bits);
    FromBitsBound(bits[2..7]);
    FromBitsBound(bits[7..13]);
    assert Pow2(5) == 32 && Pow2(6) == 64;
    mbits := if sb.value == 0 then 64 else sb.value;
    trailing' := (64 - leading' - mbits) % 256;
  }

  /** The significant bits, xored into the value. Shifting by 64 or more, which only a broken
      window asks for, is undefined in the source. */
  method ReadDelta(r: BitReader, value: u64, leading: nat, trailing: nat, mbits: nat)
    returns (value': u64, err: Option<ReadError>)
    requires r.Valid() && leading <= 31 && 0 < mbits <= 64 && trailing == (64 - leading - mbits) % 256
    modifies r
    ensures r.Valid()
    ensures leading + mbits > 64 ==> err.Some?
    ensures leading + mbits <= 64 ==> match DecDelta(value, leading, trailing, old(r.Remaining()))
      case Some((v, _, _, rest)) => err == None && value' == v && r.Remaining() == rest
      case None => err.Some?
  {
    hide FromBits, ToBits, BytesBits, Shl, Xor;
    value', err := value, None;
    var payload := r.ReadBits(mbits);
    if payload.Err? {
      err := Some(payload.error);
      return;
    }
    if trailing >= 64 {
      err := Some(Unspecified);
      return;
    }
    Pow2Values();
    XorBound(value, Shl(payload.value, trailing, 64), 64);
    value' := Xor(value, Shl(payload.value, trailing, 64));
  }

  lemma FieldSlices(bits: Bits)
    requires |bits| >= 13
    ensures bits[2..][..5] == bits[2..7]
    ensures bits[2..][5..][..6] == bits[7..13]
    ensures bits[2..][5..][6..] == bits[13..]
  {
  }

  /** Reads a chunk from start to end; fails exactly when it holds fewer samples than it says. */
  method ReadAll(bytes: seq<byte>) returns (r: Result<seq<Sample>, ReadError>)
    ensures match DecodeChunk(bytes) case Some(ss) => r == Ok(ss) case None => r.Err?
  {
    hide DecRun, SampleCount, Payload, DecodeChunk, WellFormed, XORIterator.Valid, XORIterator.Seen;
    var it := new XORIterator(bytes);
    var samples: seq<Sample> := [];
    NothingSeen(it);
    var more := it.Next();
    while more
      invariant it.Valid() && it.bytes == bytes && fresh(it) && fresh(it.reader)
      invariant samples + (if more then [Sample(it.t, it.v)] else []) == it.Seen()
      invariant !more ==> (it.err.Some? <==> it.numRead < it.numTotal)
      decreases it.numTotal - it.numRead, more
    {
      samples := samples + [Sample(it.t, it.v)];
      RoomLeft(it);
      more := it.Next();
    }
    RoomLeft(it);
    if it.err.Some? {
      NotAllSeen(it);
      return Err(it.err.value);
    }
    AllSeen(it);
    assert samples + [] == samples;
    return Ok(samples);
  }

  lemma RoomLeft(it: XORIterator)
    requires it.Valid()
    ensures it.numRead <= it.numTotal
  {
    hide DecRun;
  }

  lemma AllSeen(it: XORIterator)
    requires it.Valid() && it.numRead == it.numTotal
    ensures DecodeChunk(it.bytes) == Some(it.Seen())
  {
    hide DecRun, DecodeChunk;
    WellFormedDecodes(it.bytes);
  }

  lemma NotAllSeen(it: XORIterator)
    requires it.Valid() && it.err.Some?
    ensures DecodeChunk(it.bytes) == None
  {
    hide DecRun, DecodeChunk, Payload;
    WellFormedDecodes(it.bytes);
    Stuck(it.numRead, it.numTotal, Payload(it.bytes));
  }

  /** Where one step fails, all further ones do. */
  lemma Stuck(k: nat, n: nat, bits: Bits)
    requires k < n && DecRun(k + 1, bits).None?
    ensures DecRun(n, bits).None?
  {
    hide DecSample;
    if DecRun(n, bits).Some? {
      DecRunPrefix(k + 1, n, bits);
    }
  }

  lemma NothingSeen(it: XORIterator)
    requires it.Valid() && it.numRead == 0
    ensures it.Seen() == []
  {
  }

  // ---- Chunk -----------------------------------------------------------------

  class XORChunk {
    const writer: BitWriter

    constructor ()
      ensures Holds(writer, []) && fresh(writer)
    {
      writer := new BitWriter([0, 0]);
      new;
      EmptyChunk(writer);
    }

    /** Wraps bytes read from disk. Their last byte counts as full. */
    constructor FromBytes(bytes: seq<byte>, ghost ops: seq<Op>)
      ensures writer.Valid() && writer.stream == bytes && writer.count == 0 && fresh(writer)
      ensures |Encode(ops).samples| <= MAX_SAMPLES && bytes == ChunkBytes(ops) ==> Holds(writer, ops + [Reset])
    {
      hide Encode, ChunkBytes, Holds;
      writer := new BitWriter(bytes);
      new;
      if |Encode(ops).samples| <= MAX_SAMPLES && bytes == ChunkBytes(ops) {
        HoldsAfterReset(writer, ops);
      }
    }

    function Bytes(): seq<byte>
      reads this, writer
    {
      writer.stream
    }

    method NumSamples(ghost ops: seq<Op>) returns (n: nat)
      requires Holds(writer, ops)
      ensures n == |Encode(ops).samples|
    {
      n := BeValue(writer.stream[..HEADER_SIZE]);
    }

    /** Takes an appender. On a chunk that has samples, they are all read back to recover the
        encoder state; where they cannot be read there is no appender. */
    method Appender(ghost ops: seq<Op>) returns (r: Result<XORAppender, ReadError>)
      requires Holds(writer, ops) && (WellFormed(writer.stream) ==> Legible(ops))
      ensures r.Ok? <==> |writer.stream| == HEADER_SIZE || WellFormed(writer.stream)
      ensures r.Ok? ==> r.value.Valid() && fresh(r.value) && r.value.writer == writer && r.value.ops == ops + [Resume]
    {
      hide Encode, DecRun, Pack, BytesBits, SampleCount, Payload, ChunkBytes, Holds, Legible;
      HeldBytes(writer, ops);
      if |writer.stream| == HEADER_SIZE {
        NoSamplesYet(writer, ops);
        var a := new XORAppender(writer, ops);
        return Ok(a);
      }
      SomeSamples(writer, ops);
      var it := new XORIterator(writer.stream);
      var more := it.Next();
      while more
        invariant it.Valid() && it.bytes == writer.stream && fresh(it) && fresh(it.reader)
        invariant !more ==> (it.err.Some? <==> it.numRead < it.numTotal)
        decreases it.numTotal - it.numRead, more
      {
        more := it.Next();
      }
      if it.err.Some? {
        Stuck(it.numRead, it.numTotal, Payload(writer.stream));
        return Err(it.err.value);
      }
      HeldFew(writer, ops);
      EndState(ops);
      var a := new XORAppender.Recovered(writer, it.State(), ops);
      return Ok(a);
    }

    /** Gives back spare capacity. The bit position inside the last byte is forgotten. */
    method Compact(ghost ops: seq<Op>)
      requires writer.Valid()
      modifies writer
      ensures writer.Valid() && writer.stream == old(writer.stream) && writer.count == 0
      ensures old(Holds(writer, ops)) ==> Holds(writer, ops + [Reset])
    {
      hide Encode, ChunkBytes, Holds;
      ghost var held := Holds(writer, ops);
      if held {
        HeldBytes(writer, ops);
        HeldFew(writer, ops);
      }
      writer.Reset(writer.stream);
      if held {
        HoldsAfterReset(writer, ops);
      }
    }
  }

  lemma HeldFew(w: BitWriter, ops: seq<Op>)
    requires Holds(w, ops)
    ensures w.Valid() && |Encode(ops).samples| <= MAX_SAMPLES
  {
    hide Encode;
  }

  /** Whole bytes: the padding of the last one has become part of the stream. */
  lemma HoldsAfterReset(w: BitWriter, ops: seq<Op>)
    requires w.Valid() && w.count == 0
    requires |Encode(ops).samples| <= MAX_SAMPLES && w.stream == ChunkBytes(ops)
    ensures Holds(w, ops + [Reset])
  {
    hide BytesBits, Pack, Encode, Low, ToBits;
    EncodeSnoc(ops, Reset);
    var bits := Encode(ops).bits;
    HeaderBits(w.stream, w.stream[..2]);
    assert w.stream[2..] == Pack(bits);
    PackBits(bits);
    PadIsFill(bits);
    assert BytesBits(w.stream)[..8 * |w.stream|] == BytesBits(w.stream);
  }

  lemma PadIsFill(bits: Bits)
    ensures 8 * |Pack(bits)| - |bits| == Fill(|bits|)
  {
    hide Pack;
    PackBits(bits);
  }

  lemma EmptyChunk(w: BitWriter)
    requires w.Valid() && w.stream == [0, 0] && w.count == 0
    ensures Holds(w, [])
  {
    BeValueInjective(Header(0), [0, 0]);
  }

  lemma {:induction false} SamplesHaveBits(ops: seq<Op>)
    ensures Encode(ops).samples != [] ==> |Encode(ops).bits| >= 72
  {
    hide EncSample, NextCodec;
    if ops != [] {
      var init, last := ops[..|ops| - 1], ops[|ops| - 1];
      SamplesHaveBits(init);
      if last.Append? {
        FirstSampleBits(Encode(init).codec, last.s);
      }
    }
  }

  lemma FirstSampleBits(c: Codec, s: Sample)
    requires EncoderWindow(c.leading, c.trailing)
    ensures |EncSample(0, c, s)| >= 72
  {
  }

  lemma NoSamplesYet(w: BitWriter, ops: seq<Op>)
    requires Holds(w, ops) && |w.stream| == HEADER_SIZE
    ensures Encode(ops).samples == []
  {
    SamplesHaveBits(ops);
  }

  lemma SomeSamples(w: BitWriter, ops: seq<Op>)
    requires Holds(w, ops) && |w.stream| != HEADER_SIZE
    ensures Encode(ops).samples != []
  {
    hide Encode, BytesBits, Low;
  }

  /** An iterator that has read a whole chunk is in the state its encoder left behind. */
  lemma EndState(ops: seq<Op>)
    requires |Encode(ops).samples| <= MAX_SAMPLES && Legible(ops)
    ensures var bytes := ChunkBytes(ops);
      && WellFormed(bytes) && SampleCount(bytes) == |Encode(ops).samples|
      && DecRun(SampleCount(bytes), Payload(bytes)).value.1 == DecoderOf(Encode(ops))
  {
    hide Pack, DecRun, Encode, BytesBits, BeValue, DecoderOf;
    var r := Encode(ops);
    var bs := ChunkBytes(ops);
    var h := Header(|r.samples|);
    assert bs[..HEADER_SIZE] == h && bs[HEADER_SIZE..] == Pack(r.bits);
    PackBits(r.bits);
    assert ReadsWith(ops, ToBits(0, 8 * |Pack(r.bits)| - |r.bits|));
  }

  // ---- Appending after a compaction ------------------------------------------

  /** Bits of padding below the last sample. */
  function PadOf(bits: Bits): nat {
    8 * |Pack(bits)| - |bits|
  }

  /** The history in which the bit position is reset, an appender is taken and a sample appended. */
  function AfterReset(ops: seq<Op>, s: Sample): seq<Op> {
    ops + [Reset] + [Resume] + [Op.Append(s)]
  }

  /** Reading such a chunk gives all its samples. */
  predicate ReadsAfterReset(ops: seq<Op>, s: Sample) {
    var r := Encode(AfterReset(ops, s));
    match DecRun(|r.samples|, r.bits)
    case Some((ss, _, _)) => ss == r.samples
    case None => false
  }

  lemma ResetThenAppend(ops: seq<Op>, s: Sample)
    ensures var r, more := Encode(ops), Encode(AfterReset(ops, s));
      var c := if r.samples == [] then r.codec else Follow(r.codec);
      && more.samples == r.samples + [s]
      && more.bits == r.bits + ToBits(0, PadOf(r.bits)) + EncSample(|r.samples|, c, s)
  {
    hide Encode, EncSample, NextCodec, Pack, ToBits, PadOf;
    EncodeSnoc(ops, Reset);
    EncodeSnoc(ops + [Reset], Resume);
    EncodeSnoc(ops + [Reset] + [Resume], Op.Append(s));
    PadOfIsFill(Encode(ops).bits);
  }

  lemma PadOfIsFill(bits: Bits)
    ensures PadOf(bits) == Fill(|bits|)
  {
    hide Pack;
    PadIsFill(bits);
  }

  /** Every next sample is read back exactly when the last byte of the chunk was full. */
  lemma ResetSafeIffAligned(ops: seq<Op>)
    requires Aligned(ops)
    ensures (forall s :: ReadsAfterReset(ops, s)) <==> |Encode(ops).bits| % 8 == 0
  {
    var r := Encode(ops);
    hide DecRun, Encode, EncSample, NextCodec, Pack, DecSample, Aligned, ReadsAfterReset;
    if |r.bits| % 8 == 0 {
      forall s
        ensures ReadsAfterReset(ops, s)
      {
        AlignedReset(ops, s);
      }
    } else {
      var s := Sample(ToI64(r.codec.t + ToI64(r.codec.tDelta)), if r.codec.v == 0 then 1 else 0);
      MisalignedReset(ops, s);
    }
  }

  lemma AlignedReset(ops: seq<Op>, s: Sample)
    requires Aligned(ops) && |Encode(ops).bits| % 8 == 0
    ensures Aligned(AfterReset(ops, s)) && ReadsAfterReset(ops, s)
  {
    hide DecRun, Encode, Aligned;
    AlignedSnoc(ops, Reset);
    AlignedSnoc(ops + [Reset], Resume);
    AlignedSnoc(ops + [Reset] + [Resume], Op.Append(s));
    ChunkRoundTrip(AfterReset(ops, s), []);
    assert Encode(AfterReset(ops, s)).bits + [] == Encode(AfterReset(ops, s)).bits;
  }

  /** Two samples with the same value leave seven bits of the last byte unused, so that some third
      sample, appended after a reset, is not read back. */
  lemma UnfilledAfterTwo(a: Sample, b: Sample)
    requires a.v == b.v
    ensures var ops := [Op.Append(a), Op.Append(b)];
      && Aligned(ops) && |Encode(ops).bits| % 8 == 1 && exists s :: !ReadsAfterReset(ops, s)
  {
    hide ReadsAfterReset, BytesBits, Uvarint, ToBits;
    var ops := [Op.Append(a), Op.Append(b)];
    assert [Op.Append(a)][..0] == [] && ops[..1] == [Op.Append(a)];
    TwoSampleBits(a, b);
    ResetSafeIffAligned(ops);
  }

  lemma TwoSampleBits(a: Sample, b: Sample)
    requires a.v == b.v
    ensures |Encode([Op.Append(a), Op.Append(b)]).bits| % 8 == 1
  {
    hide EncSample, NextCodec, Encode;
    OneSampleBits(a);
    EncodeSnoc([Op.Append(a)], Op.Append(b));
    assert [Op.Append(a)] + [Op.Append(b)] == [Op.Append(a), Op.Append(b)];
    SameValueBits(Encode([Op.Append(a)]).codec, b);
  }

  lemma OneSampleBits(a: Sample)
    ensures var r := Encode([Op.Append(a)]);
      |r.samples| == 1 && r.codec.v == a.v && |r.bits| % 8 == 0
  {
    hide BytesBits, ToBits, EncSample;
    var none: seq<Op> := [];
    assert Encode(none) == Trace([], [], ENC_INIT);
    EncodeSnoc(none, Op.Append(a));
    FirstWhole(ENC_INIT, a);
    assert none + [Op.Append(a)] == [Op.Append(a)];
  }

  lemma SameValueBits(c: Codec, s: Sample)
    requires EncoderWindow(c.leading, c.trailing) && c.v == s.v
    ensures |EncSample(1, c, s)| % 8 == 1
  {
    hide BytesBits, ToBits, Uvarint;
    XorSelf(s.v);
  }

  /** Chunks of fewer than two samples end on a byte boundary. */
  lemma {:induction false} ShortAligned(ops: seq<Op>)
    requires |Encode(ops).samples| < 2
    ensures |Encode(ops).bits| % 8 == 0
  {
    hide NextCodec, EncSample, ToBits;
    if ops != [] {
      var init, last := ops[..|ops| - 1], ops[|ops| - 1];
      ShortAligned(init);
      if last.Append? {
        FirstWhole(Encode(init).codec, last.s);
      }
    }
  }

  lemma FirstWhole(c: Codec, s: Sample)
    requires EncoderWindow(c.leading, c.trailing)
    ensures |EncSample(0, c, s)| % 8 == 0
  {
    hide BytesBits, ToBits, ZigZagVarint;
  }

  /** With a partly used last byte, the padding is read as an unchanged value. */
  lemma MisalignedReset(ops: seq<Op>, s: Sample)
    requires Aligned(ops) && |Encode(ops).bits| % 8 != 0
    requires s.v != Encode(ops).codec.v
    requires s.t == ToI64(Encode(ops).codec.t + ToI64(Encode(ops).codec.tDelta))
    ensures !ReadsAfterReset(ops, s)
  {
    hide *;
    var n, c := |Encode(ops).samples|, Follow(Encode(ops).codec);
    MisalignedStart(ops, s);
    var bits := Encode(ops).bits;
    var pad, enc := PadOf(bits), EncSample(n, c, s);
    PadZerosFirst(bits, enc);
    var tail := ToBits(0, pad) + enc;
    ChunkRoundTrip(ops, tail);
    ConcatAssoc(bits, ToBits(0, pad), enc);
    MisreadSample(n, c, bits + tail, tail);
    ResetThenAppend(ops, s);
    NotRead(ops, s);
  }

  /** What the resumed appender starts from, when the last byte is partly used. */
  lemma MisalignedStart(ops: seq<Op>, s: Sample)
    requires |Encode(ops).bits| % 8 != 0
    requires s.v != Encode(ops).codec.v
    requires s.t == ToI64(Encode(ops).codec.t + ToI64(Encode(ops).codec.tDelta))
    ensures var r := Encode(ops);
      var n, c := |r.samples|, Follow(r.codec);
      n >= 2 && r.samples != [] && EncoderWindow(c.leading, c.trailing) && DecoderOf(r) == c && s.v != c.v && |EncSample(n, c, s)| > 0 && !EncSample(n, c, s)[0]
  {
    hide EncSample, Encode;
    if |Encode(ops).samples| < 2 {
      ShortAligned(ops);
      assert false;
    }
    SteadyTimeBit(|Encode(ops).samples|, Follow(Encode(ops).codec), s);
  }

  lemma NotRead(ops: seq<Op>, s: Sample)
    requires var r, n := Encode(AfterReset(ops, s)), |Encode(ops).samples|;
      r.samples == Encode(ops).samples + [s] && DecRun(n + 1, r.bits).Some? && DecRun(n + 1, r.bits).value.0[n].v != s.v
    ensures !ReadsAfterReset(ops, s)
  {
    hide DecRun, Encode;
  }

  lemma PadZerosFirst(bits: Bits, enc: Bits)
    requires |bits| % 8 != 0 && |enc| > 0 && !enc[0]
    ensures PadOf(bits) >= 0
    ensures var tail := ToBits(0, PadOf(bits)) + enc;
      |tail| >= 2 && !tail[0] && !tail[1]
  {
    hide ToBits, Pack;
    PackBits(bits);
    ZeroBits(PadOf(bits));
  }

  lemma MisreadSample(n: nat, c: Codec, bits: Bits, tail: Bits)
    requires n >= 2 && |tail| >= 2 && !tail[0] && !tail[1]
    requires DecRun(n, bits).Some? && DecRun(n, bits).value.1 == c && DecRun(n, bits).value.2 == tail
    ensures DecRun(n + 1, bits).Some? && DecRun(n + 1, bits).value.0[n].v == c.v
  {
    hide DecRun, DecSample;
    TwoZeros(n, c, tail);
    RunOneMore(n, bits);
  }

  lemma RunOneMore(n: nat, bits: Bits)
    requires DecRun(n, bits).Some?
    requires DecSample(n, DecRun(n, bits).value.1, DecRun(n, bits).value.2).Some?
    ensures DecRun(n + 1, bits).Some?
    ensures DecRun(n + 1, bits).value.0[n].v
         == DecSample(n, DecRun(n, bits).value.1, DecRun(n, bits).value.2).value.0.v
  {
    hide DecSample;
  }

  /** An unchanged time difference is the single bit 0. */
  lemma SteadyTimeBit(n: nat, c: Codec, s: Sample)
    requires n >= 2 && EncoderWindow(c.leading, c.trailing)
    requires s.t == ToI64(c.t + ToI64(c.tDelta))
    ensures |EncSample(n, c, s)| > 0 && !EncSample(n, c, s)[0]
  {
    SteadyTime(c.t, c.tDelta);
    hide EncValue;
  }

  lemma SteadyTime(t: i64, td: u64)
    ensures ToI64(ToU64(ToI64(t + ToI64(td)) - t) - td) == 0
  {
    SteadyDelta(t, td);
  }

  lemma SteadyDelta(t: i64, td: u64)
    ensures ToU64(ToI64(t + ToI64(td)) - t) == td
  {
  }

  /** Two zero bits are a sample with the same value. */
  lemma TwoZeros(n: nat, c: Codec, bits: Bits)
    requires n >= 2 && Window(c.leading, c.trailing) && |bits| >= 2 && !bits[0] && !bits[1]
    ensures DecSample(n, c, bits).Some? && DecSample(n, c, bits).value.0.v == c.v
  {
  }

  /** A sample appended to a chunk whose spare capacity was given back: the chunk holds the history
      with a reset in it, and reads back as it should when the last byte was full. */
  method AppendAfterCompact(chunk: XORChunk, t: i64, v: u64, ghost ops: seq<Op>) returns (ok: bool)
    requires Holds(chunk.writer, ops) && Aligned(ops)
    modifies chunk.writer
    ensures ok <==> |Encode(ops).samples| < MAX_SAMPLES
    ensures ok ==> Holds(chunk.writer, AfterReset(ops, Sample(t, v)))
    ensures ok && |Encode(ops).bits| % 8 == 0 ==> DecodeChunk(chunk.writer.stream) == Some(Encode(ops).samples + [Sample(t, v)])
  {
    hide Encode, DecRun, DecodeChunk, ChunkBytes, Holds, Legible, Aligned, WellFormed;
    AlignedLegible(ops);
    ResetLegible(ops);
    EncodeSnoc(ops, Reset);
    EncodeSnoc(ops + [Reset], Resume);
    HeldFew(chunk.writer, ops);
    chunk.Compact(ops);
    HeldLegible(chunk.writer, ops + [Reset]);
    var a := chunk.Appender(ops + [Reset]);
    ok := a.value.Append(t, v);
    if ok {
      ResetThenAppend(ops, Sample(t, v));
      AppenderHolds(a.value);
      HeldFew(chunk.writer, AfterReset(ops, Sample(t, v)));
      HeldBytes(chunk.writer, AfterReset(ops, Sample(t, v)));
      if |Encode(ops).bits| % 8 == 0 {
        AlignedReset(ops, Sample(t, v));
        AlignedLegible(AfterReset(ops, Sample(t, v)));
        ChunkBytesDecode(AfterReset(ops, Sample(t, v)));
      }
    }
  }

  lemma AppenderHolds(a: XORAppender)
    requires a.Valid()
    ensures Holds(a.writer, a.ops)
  {
  }

  lemma HeldLegible(w: BitWriter, ops: seq<Op>)
    requires Holds(w, ops) && Legible(ops)
    ensures WellFormed(w.stream)
  {
    hide Holds, Legible, WellFormed, Encode, DecRun;
    HeldFew(w, ops);
    HeldBytes(w, ops);
    EndState(ops);
  }
}
