/** One in-memory series: chunk cutting and monotone append. */
module MemSeriesModel {
  import opened Words
  import opened Wrappers
  import opened Bstream
  import opened XorCode
  import opened XorChunks
  import opened LabelSets

  /** A chunk is cut before an append when it already has more bytes than this. */
  const MAX_BYTES_BEFORE_APPEND := 1024 - 19

  /** A series as a value: every chunk by the samples it holds. */
  datatype Series = Series(ref: nat, labels: Labels, chunks: seq<seq<Sample>>)

  function Flatten<T>(xs: seq<seq<T>>): seq<T> {
    if xs == [] then [] else Flatten(xs[..|xs| - 1]) + xs[|xs| - 1]
  }

  function Samples(s: Series): seq<Sample> {
    Flatten(s.chunks)
  }

  // ---- Bytes of a chunk of samples -------------------------------------------

  /** The history of a chunk that one appender filled. */
  function History(ss: seq<Sample>): seq<Op> {
    if ss == [] then [Resume] else History(ss[..|ss| - 1]) + [Op.Append(ss[|ss| - 1])]
  }

  lemma {:induction false} HistorySamples(ss: seq<Sample>)
    ensures Encode(History(ss)).samples == ss
  {
    hide EncSample, NextCodec;
    if ss == [] {
      assert [Resume][..0] == [];
    } else {
      HistorySamples(ss[..|ss| - 1]);
      EncodeSnoc(History(ss[..|ss| - 1]), Op.Append(ss[|ss| - 1]));
      assert ss == ss[..|ss| - 1] + [ss[|ss| - 1]];
    }
  }

  lemma {:induction false} HistoryAligned(ss: seq<Sample>)
    ensures Aligned(History(ss))
  {
    hide Encode;
    if ss != [] {
      HistoryAligned(ss[..|ss| - 1]);
      AlignedSnoc(History(ss[..|ss| - 1]), Op.Append(ss[|ss| - 1]));
    }
  }

  function BitsOf(ss: seq<Sample>): Bits {
    Encode(History(ss)).bits
  }

  /** Bytes of a chunk: two for the count, then the packed bits. */
  function ByteSize(ss: seq<Sample>): nat {
    HEADER_SIZE + (|BitsOf(ss)| + 7) / 8
  }

  function BytesOf(ss: seq<Sample>): (bs: seq<byte>)
    requires |ss| <= MAX_SAMPLES
    ensures |bs| == ByteSize(ss)
  {
    HistorySamples(ss);
    ChunkBytes(History(ss))
  }

  /** What was put into a chunk is what reading its bytes gives. */
  lemma BytesDecode(ss: seq<Sample>)
    requires |ss| <= MAX_SAMPLES
    ensures DecodeChunk(BytesOf(ss)) == Some(ss)
  {
    HistorySamples(ss);
    HistoryAligned(ss);
    AlignedLegible(History(ss));
    ChunkBytesDecode(History(ss));
  }

  // ---- How many bits a sample takes ------------------------------------------

  lemma ValueBits(delta: u64, leading: nat, trailing: nat)
    requires EncoderWindow(leading, trailing)
    ensures 1 <= |EncValue(delta, leading, trailing)| <= 77
  {
    hide ToBits, Shr, CountlZero, CountrZero, FreshLeading, FreshBits;
    if delta != 0 {
      if !Reuses(delta, leading, trailing) {
        FreshParts(delta, leading, trailing);
        FreshShape(delta);
      }
    }
  }

  lemma DodBits(dod: i64)
    ensures 1 <= |EncDod(dod)| <= 68
  {
    hide ToBits, BitRange;
  }

  lemma UvarintBits(x: u64)
    ensures 8 <= |BytesBits(Varint.Uvarint(x))| <= 80
  {
    Varint.UvarintMaxLength(x);
  }

  /** Smallest and largest codes of the first, the second and any later sample. */
  lemma SampleBits(num: nat, c: Codec, s: Sample)
    requires EncoderWindow(c.leading, c.trailing)
    ensures num == 0 ==> 72 <= |EncSample(num, c, s)| <= 144
    ensures num == 1 ==> 9 <= |EncSample(num, c, s)| <= 157
    ensures num >= 2 ==> 2 <= |EncSample(num, c, s)| <= 145
  {
    hide EncValue, EncDod, BytesBits, Varint.Uvarint, DeltaOf, ToBits;
    UvarintBits(Varint.ZigZag(s.t));
    UvarintBits(ToU64(s.t - c.t));
    ValueBits(DeltaOf(s.v, c.v), c.leading, c.trailing);
    DodBits(ToI64(ToU64(s.t - c.t) - c.tDelta));
    SampleParts(num, c, s);
  }

  /** One more sample. */
  lemma BitsGrow(ss: seq<Sample>, s: Sample)
    ensures |ss| == 0 ==> 72 <= |BitsOf(ss + [s])| - |BitsOf(ss)| <= 144
    ensures |ss| == 1 ==> 9 <= |BitsOf(ss + [s])| - |BitsOf(ss)| <= 157
    ensures |ss| >= 2 ==> 2 <= |BitsOf(ss + [s])| - |BitsOf(ss)| <= 145
  {
    hide EncSample, NextCodec, Encode;
    var t := ss + [s];
    assert t[..|t| - 1] == ss;
    HistorySamples(ss);
    EncodeSnoc(History(ss), Op.Append(s));
    SampleBits(|ss|, Encode(History(ss)).codec, s);
  }

  lemma {:induction false} BitsAtLeast(ss: seq<Sample>)
    ensures ss == [] ==> |BitsOf(ss)| == 0
    ensures |ss| >= 2 ==> |BitsOf(ss)| >= 81 + 2 * (|ss| - 2)
    ensures |ss| == 1 ==> 72 <= |BitsOf(ss)| <= 144
  {
    if ss == [] {
      assert [Resume][..0] == [];
    } else {
      var init, last := ss[..|ss| - 1], ss[|ss| - 1];
      assert ss == init + [last];
      BitsAtLeast(init);
      hide BitsOf;
      BitsGrow(init, last);
    }
  }

  /** The bits and the encoder's state after one sample more. */
  lemma NextState(ss: seq<Sample>, x: Sample)
    ensures var c := Encode(History(ss)).codec;
      BitsOf(ss + [x]) == BitsOf(ss) + EncSample(|ss|, c, x) && Encode(History(ss + [x])).codec == NextCodec(|ss|, c, x)
  {
    hide EncSample, NextCodec, Encode, History;
    HistorySamples(ss);
    HistorySnoc(ss, x);
    EncodeSnoc(History(ss), Op.Append(x));
  }

  /** After two samples or more the state is the last one and how far it is from the one before. */
  lemma StateAfter(ss: seq<Sample>, a: Sample, b: Sample)
    ensures var c := Encode(History(ss + [a] + [b])).codec;
      c.t == b.t && c.v == b.v && c.tDelta == ToU64(b.t - a.t)
  {
    hide Encode, EncSample, NextCodec, History, DeltaOf, NextLeading, NextTrailing;
    NextState(ss, a);
    NextState(ss + [a], b);
    SampleParts(|ss| + 1, Encode(History(ss + [a])).codec, b);
  }

  /** A steady series costs two zero bits a sample: the same step in time and the same value. */
  lemma SteadyStep(ss: seq<Sample>, x: Sample)
    requires |ss| >= 2 && x.v == ss[|ss| - 1].v && x.t - ss[|ss| - 1].t == ss[|ss| - 1].t - ss[|ss| - 2].t
    ensures BitsOf(ss + [x]) == BitsOf(ss) + [false, false]
  {
    hide Encode, EncSample, NextCodec;
    var n := |ss|;
    assert ss == ss[..n - 2] + [ss[n - 2]] + [ss[n - 1]];
    StateAfter(ss[..n - 2], ss[n - 2], ss[n - 1]);
    NextState(ss, x);
    var c := Encode(History(ss)).codec;
    SteadyCode(|ss|, c, x);
  }

  lemma SteadyCode(num: nat, c: Codec, x: Sample)
    requires num >= 2 && EncoderWindow(c.leading, c.trailing) && x.v == c.v && c.tDelta == ToU64(x.t - c.t)
    ensures EncSample(num, c, x) == [false, false]
  {
    hide EncSample, NextCodec, EncDod, EncValue, Xor, NextLeading, NextTrailing;
    XorSelf(x.v);
    SampleParts(num, c, x);
    NothingChanged(c.leading, c.trailing);
  }

  lemma NothingChanged(leading: nat, trailing: nat)
    requires EncoderWindow(leading, trailing)
    ensures EncDod(0) == [false] && EncValue(0, leading, trailing) == [false]
  {
  }

  // ---- The append ------------------------------------------------------------

  /** What every chunk of a series is: not empty, and below the threshold before its last
      sample came. */
  predicate WellCut(ss: seq<Sample>) {
    |ss| > 0 && (|ss| > 1 ==> ByteSize(ss[..|ss| - 1]) <= MAX_BYTES_BEFORE_APPEND)
  }

  /** A chunk never exceeds 1024 bytes nor 3974 samples. */
  lemma WellCutBounds(ss: seq<Sample>)
    requires WellCut(ss)
    ensures ByteSize(ss) <= 1024
    ensures |ss| <= 3974
  {
    hide BitsOf;
    var init, last := ss[..|ss| - 1], ss[|ss| - 1];
    assert ss == init + [last];
    BitsGrow(init, last);
    BitsAtLeast(init);
  }

  ghost predicate NonDecreasing(ss: seq<Sample>) {
    forall i, j :: 0 <= i < j < |ss| ==> ss[i].t <= ss[j].t
  }

  /** Every chunk is well cut, and none is left before it is full. */
  predicate CutRight(chunks: seq<seq<Sample>>) {
    && (forall i :: 0 <= i < |chunks| ==> WellCut(chunks[i]))
    && forall i :: 0 <= i < |chunks| - 1 ==> ByteSize(chunks[i]) > MAX_BYTES_BEFORE_APPEND
  }

  ghost predicate WellFormedSeries(s: Series) {
    CutRight(s.chunks) && NonDecreasing(Samples(s))
  }

  function LastTime(s: Series): i64
    requires Samples(s) != []
  {
    Samples(s)[|Samples(s)| - 1].t
  }

  /** A time below the last one is refused; nothing else is. */
  predicate Refuses(s: Series, t: i64) {
    Samples(s) != [] && t < LastTime(s)
  }

  /** An append starts a new chunk. */
  predicate CutsBefore(s: Series) {
    s.chunks == [] || ByteSize(s.chunks[|s.chunks| - 1]) > MAX_BYTES_BEFORE_APPEND
  }

  function Appended(s: Series, x: Sample): Series {
    var n := |s.chunks|;
    if CutsBefore(s) then s.(chunks := s.chunks + [[x]])
    else s.(chunks := s.chunks[..n - 1] + [s.chunks[n - 1] + [x]])
  }

  lemma FlattenSnoc<T>(xs: seq<seq<T>>, x: seq<T>)
    ensures Flatten(xs + [x]) == Flatten(xs) + x
  {
    assert (xs + [x])[..|xs|] == xs;
  }

  /** However the append cuts, it adds one sample at the end and keeps every bound. */
  lemma AppendedMeaning(s: Series, x: Sample)
    requires WellFormedSeries(s)
    ensures Samples(Appended(s, x)) == Samples(s) + [x]
    ensures !Refuses(s, x.t) ==> WellFormedSeries(Appended(s, x))
  {
    hide ByteSize, Flatten;
    var n := |s.chunks|;
    if CutsBefore(s) {
      FlattenSnoc(s.chunks, [x]);
    } else {
      FlattenLonger(s.chunks[..n - 1], s.chunks[n - 1], x);
      assert s.chunks == s.chunks[..n - 1] + [s.chunks[n - 1]];
      assert (s.chunks[n - 1] + [x])[..|s.chunks[n - 1]|] == s.chunks[n - 1];
    }
  }

  lemma FlattenLonger(init: seq<seq<Sample>>, last: seq<Sample>, x: Sample)
    ensures Flatten(init + [last + [x]]) == Flatten(init + [last]) + [x]
  {
    hide Flatten;
    FlattenSnoc(init, last);
    FlattenSnoc(init, last + [x]);
    assert Flatten(init) + (last + [x]) == Flatten(init) + last + [x];
  }

  /** A chunk that another one follows has between 1006 and 1024 bytes. */
  lemma FullWhenLeft(s: Series, i: nat)
    requires WellFormedSeries(s) && i < |s.chunks| - 1
    ensures |s.chunks[i]| <= MAX_SAMPLES && 1005 < |BytesOf(s.chunks[i])| <= 1024
  {
    hide ByteSize;
    WellCutBounds(s.chunks[i]);
  }

  /** A chunk of `n` bytes is left exactly when one more sample could take it past 1024 bytes. */
  lemma LeftWhenShort(n: nat)
    ensures n > 1005 <==>
      exists c: Codec, s: Sample :: EncoderWindow(c.leading, c.trailing) && 8 * n + |EncSample(2, c, s)| > 8 * 1024
  {
    hide EncSample;
    if n > 1005 {
      LongestCode();
      assert EncoderWindow(1, 0);
    }
    if c: Codec, s: Sample :| EncoderWindow(c.leading, c.trailing) && 8 * n + |EncSample(2, c, s)| > 8 * 1024 {
      SampleBits(2, c, s);
    }
  }

  /** A time difference that jumps far and a value that changes its first and its last bit. */
  lemma LongestCode()
    ensures |EncSample(2, Codec(0, 0, 0, 1, 0), Sample(0x1_0000_0000, 0x8000_0000_0000_0001))| == 145
  {
    hide EncSample, NextCodec, EncDod, EncValue, DeltaOf, ToU64, ToI64;
    var c, s := Codec(0, 0, 0, 1, 0), Sample(0x1_0000_0000, 0x8000_0000_0000_0001);
    SampleParts(2, c, s);
    FirstStep();
    DodLength(0x1_0000_0000);
    WholeChange(0x8000_0000_0000_0001);
  }

  lemma FirstStep()
    ensures ToI64(ToU64(0x1_0000_0000 - 0) - 0) == 0x1_0000_0000
    ensures DeltaOf(0x8000_0000_0000_0001, 0) == 0x8000_0000_0000_0001
  {
    XorZero(0x8000_0000_0000_0001);
  }

  lemma WholeChange(delta: u64)
    requires delta >= TWO63 && delta % 2 == 1
    ensures |EncValue(delta, 1, 0)| == 77
  {
    hide EncValue, Narrowest, LiesIn;
    ValueLength(delta, 1, 0);
    OnlyWhole(delta);
  }

  lemma OnlyWhole(delta: u64)
    requires delta >= TWO63 && delta % 2 == 1
    ensures !LiesIn(delta, 1, 0) && forall l: nat, t: nat :: Narrowest(delta, l, t) ==> l == t == 0
  {
    hide Pow2;
    Pow2Values();
    forall l: nat, t: nat | Narrowest(delta, l, t)
      ensures l == t == 0
    {
      if l > 0 {
        Pow2Mono(64 - l, 63);
      }
      if t > 0 {
        EvenMultiple(delta, t);
      }
    }
  }

  lemma EvenMultiple(x: nat, t: nat)
    requires t > 0 && x % Pow2(t) == 0
    ensures x % 2 == 0
  {
    hide Pow2;
    LowMod(x, t);
  }

  // ---- The cuts follow from the samples --------------------------------------

  lemma {:induction false} FlattenFirst<T>(xs: seq<seq<T>>)
    requires xs != []
    ensures Flatten(xs) == xs[0] + Flatten(xs[1..])
    decreases |xs|
  {
    if |xs| == 1 {
      assert Flatten(xs) == Flatten(xs[..0]) + xs[0] == xs[0] && xs[0] + [] == xs[0];
    } else {
      FlattenFirst(xs[..|xs| - 1]);
      assert xs[1..][..|xs| - 2] == xs[..|xs| - 1][1..];
      assert xs[0] + Flatten(xs[..|xs| - 1][1..]) + xs[|xs| - 1] == xs[0] + (Flatten(xs[..|xs| - 1][1..]) + xs[|xs| - 1]);
    }
  }

  lemma {:induction false} SizeGrows(ss: seq<Sample>, k: nat)
    requires k <= |ss|
    ensures ByteSize(ss[..k]) <= ByteSize(ss)
    decreases |ss|
  {
    hide BitsOf;
    if k < |ss| {
      var init, last := ss[..|ss| - 1], ss[|ss| - 1];
      assert ss == init + [last] && init[..k] == ss[..k];
      SizeGrows(init, k);
      BitsGrow(init, last);
    } else {
      assert ss[..k] == ss;
    }
  }

  lemma NotShorter(a: seq<seq<Sample>>, b: seq<seq<Sample>>)
    requires CutRight(a) && CutRight(b) && a != [] && b != [] && Flatten(a) == Flatten(b)
    ensures |a[0]| >= |b[0]|
  {
    hide ByteSize, Flatten;
    FlattenFirst(a);
    FlattenFirst(b);
    var n := |b[0]| - 1;
    if |a[0]| <= n {
      if |a| == 1 {
        assert Flatten(a[1..]) == [] by {
          NothingToFlatten(a[1..]);
        }
        assert false;
      }
      assert a[0] == Flatten(a)[..|a[0]|] == b[0][..|a[0]|] == b[0][..n][..|a[0]|];
      SizeGrows(b[0][..n], |a[0]|);
    }
  }

  lemma NothingToFlatten<T>(xs: seq<seq<T>>)
    requires xs == []
    ensures Flatten(xs) == []
  {
  }

  lemma {:induction false} NothingFlattened(a: seq<seq<Sample>>)
    requires CutRight(a) && Flatten(a) == []
    ensures a == []
  {
    hide ByteSize;
  }

  /** The samples of a series settle its chunks: there is one way to cut them. */
  lemma {:induction false} CutsUnique(a: seq<seq<Sample>>, b: seq<seq<Sample>>)
    requires CutRight(a) && CutRight(b) && Flatten(a) == Flatten(b)
    ensures a == b
    decreases |a|
  {
    hide ByteSize, Flatten, WellCut;
    if a == [] || b == [] {
      NothingToFlatten<Sample>([]);
      NothingFlattened(if a == [] then b else a);
    } else {
      NotShorter(a, b);
      NotShorter(b, a);
      FlattenFirst(a);
      FlattenFirst(b);
      assert a[0] == Flatten(a)[..|a[0]|] == b[0];
      assert Flatten(a[1..]) == Flatten(a)[|a[0]|..] == Flatten(b[1..]);
      CutsUnique(a[1..], b[1..]);
      assert a == [a[0]] + a[1..] && b == [b[0]] + b[1..];
    }
  }

  /** The bytes of all chunks, in order, decode to the accepted samples. */
  lemma {:induction false} ChunksDecode(s: Series)
    requires WellFormedSeries(s)
    ensures forall i :: 0 <= i < |s.chunks| ==>
      && |s.chunks[i]| <= 3974 && |BytesOf(s.chunks[i])| <= 1024
      && DecodeChunk(BytesOf(s.chunks[i])) == Some(s.chunks[i])
  {
    hide ByteSize, BytesOf, DecodeChunk, WellCut;
    forall i | 0 <= i < |s.chunks|
      ensures |s.chunks[i]| <= 3974 && |BytesOf(s.chunks[i])| <= 1024
      ensures DecodeChunk(BytesOf(s.chunks[i])) == Some(s.chunks[i])
    {
      WellCutBounds(s.chunks[i]);
      BytesDecode(s.chunks[i]);
    }
  }

  // ---- The class -------------------------------------------------------------

  class MemSeries {
    const ref: nat
    const labels: Labels
    var chunks: seq<XORChunk>
    var appender: XORAppender?
    var lastT: i64
    var lastV: u64
    var numSamples: nat
    var hasSample: bool
    /** The same series as a value. */
    ghost var content: Series
    ghost var Repr: set<object>

    ghost predicate Valid()
      reads this, Repr
    {
      && this in Repr
      && Owned() && WellFormedSeries(content)
      && content.ref == ref && content.labels == labels
      && (hasSample <==> Samples(content) != [])
      && (hasSample ==> lastT == LastTime(content) && lastV == Samples(content)[|Samples(content)| - 1].v)
      && numSamples == |Samples(content)|
    }

    /** Every chunk's writer holds its samples, and the appender writes to the last one. */
    ghost predicate Owned()
      reads this, Repr
    {
      && |chunks| == |content.chunks|
      && (forall i :: 0 <= i < |chunks| ==> chunks[i] in Repr && chunks[i].writer in Repr)
      && (forall i, j :: 0 <= i < j < |chunks| ==> chunks[i].writer != chunks[j].writer)
      && (forall i :: 0 <= i < |chunks| ==> Holds(chunks[i].writer, History(content.chunks[i])))
      && (appender == null <==> chunks == [])
      && (appender != null ==>
            && appender in Repr && appender.writer == chunks[|chunks| - 1].writer
            && appender.Valid() && appender.ops == History(content.chunks[|chunks| - 1]))
    }

    constructor (ref: nat, labels: Labels)
      ensures Valid() && fresh(Repr)
      ensures content == Series(ref, labels, [])
    {
      this.ref, this.labels := ref, labels;
      chunks, appender := [], null;
      lastT, lastV, numSamples, hasSample := -0x8000_0000_0000_0000, 0, 0, false;
      content := Series(ref, labels, []);
      Repr := {this};
    }

    /** Starts a new, empty chunk with its own appender. */
    method CutChunk()
      requires this in Repr && Owned()
      modifies this
      ensures this in Repr && Owned() && fresh(Repr - old(Repr)) && old(Repr) <= Repr
      ensures content == old(content).(chunks := old(content).chunks + [[]])
      ensures |chunks| == |old(chunks)| + 1 && fresh(appender) && fresh(appender.writer)
      ensures lastT == old(lastT) && lastV == old(lastV)
      ensures numSamples == old(numSamples) && hasSample == old(hasSample)
    {
      hide Encode, BytesBits, Low, WellFormedSeries, Flatten, ByteSize, WellCut, ChunkBytes, XorChunks.Holds, History;
      var chunk := new XORChunk();
      EmptyLegible();
      HeldLegible(chunk.writer, []);
      var a := chunk.Appender([]);
      HistoryOfNothing();
      chunks, appender := chunks + [chunk], a.value;
      content := content.(chunks := content.chunks + [[]]);
      Repr := Repr + {chunk, chunk.writer, a.value};
    }

    lemma OwnedParts()
      requires Owned()
      ensures |chunks| == |content.chunks|
      ensures chunks != [] ==>
        && appender != null && appender in Repr && appender.writer in Repr
        && chunks[|chunks| - 1] in Repr && chunks[|chunks| - 1].writer in Repr
        && Holds(chunks[|chunks| - 1].writer, History(content.chunks[|chunks| - 1]))
    {
    }

    /** Hands one sample to the current appender and records it as the last one. */
    method Push(x: Sample)
      requires this in Repr && Owned() && appender != null && chunks != []
      requires |content.chunks| == |chunks| && |content.chunks[|chunks| - 1]| < MAX_SAMPLES
      modifies this, appender, appender.writer
      ensures this in Repr && Owned() && Repr == old(Repr)
      ensures |old(content.chunks)| == old(|chunks|) && content == old(content).(chunks :=
        old(content).chunks[..old(|chunks|) - 1] + [old(content).chunks[old(|chunks|) - 1] + [x]])
      ensures lastT == x.t && lastV == x.v
      ensures numSamples == old(numSamples) + 1 && hasSample
    {
      hide Encode, BytesBits, Low, History, WellFormedSeries, Flatten, ByteSize, WellCut, ChunkBytes, XorChunks.Holds;
      ghost var n := |chunks| - 1;
      ghost var last := content.chunks[n];
      HistorySamples(last);
      HistorySnoc(last, x);
      var took := appender.Append(x.t, x.v);
      if !took {
        assert false;
      }
      content := content.(chunks := content.chunks[..n] + [last + [x]]);
      lastT, lastV := x.t, x.v;
      numSamples := numSamples + 1;
      hasSample := true;
    }

    /** Cuts a new chunk when there is none or the current one is nearly full. */
    method MakeRoom()
      requires this in Repr && Owned()
      modifies this
      ensures this in Repr && Owned() && fresh(Repr - old(Repr)) && old(Repr) <= Repr
      ensures content == if CutsBefore(old(content)) then old(content).(chunks := old(content).chunks + [[]]) else old(content)
      ensures |content.chunks| == |chunks| > 0 && appender != null && appender in Repr && appender.writer in Repr
      ensures lastT == old(lastT) && lastV == old(lastV)
      ensures numSamples == old(numSamples) && hasSample == old(hasSample)
    {
      hide Encode, BytesBits, Low, Flatten, ByteSize, ChunkBytes, History, Owned, Holds;
      OwnedParts();
      var full := chunks == [];
      if chunks != [] {
        SizeInBytes(chunks[|chunks| - 1].writer, content.chunks[|chunks| - 1]);
        full := |chunks[|chunks| - 1].Bytes()| > MAX_BYTES_BEFORE_APPEND;
      }
      if full {
        CutChunk();
        OwnedParts();
      }
    }

    /** Appends one sample. The source's second attempt, for a chunk whose 16-bit count is
        full, is never reached: `Push` cannot be refused. */
    method Append(t: i64, v: u64) returns (ok: bool)
      requires Valid()
      modifies Repr
      ensures Valid() && fresh(Repr - old(Repr))
      ensures ok <==> !Refuses(old(content), t)
      ensures content == if ok then Appended(old(content), Sample(t, v)) else old(content)
    {
      hide Encode, BytesBits, Low, WellFormedSeries, Flatten, ByteSize, WellCut, ChunkBytes, History, Owned, Holds, Appended, CutsBefore;
      if hasSample && t < lastT {
        return false;
      }
      ghost var before := content;
      var x := Sample(t, v);
      MakeRoom();
      CountBelowLimit(before, content, |chunks| - 1);
      Push(x);
      AppendedShape(before, x, content);
      AppendedMeaning(before, x);
      return true;
    }
  }

  lemma AppendedShape(s: Series, x: Sample, after: Series)
    requires CutsBefore(s) ==> after == s.(chunks := (s.chunks + [[]])[..|s.chunks|] + [(s.chunks + [[]])[|s.chunks|] + [x]])
    requires !CutsBefore(s) ==> after == s.(chunks := s.chunks[..|s.chunks| - 1] + [s.chunks[|s.chunks| - 1] + [x]])
    ensures after == Appended(s, x) && after.ref == s.ref && after.labels == s.labels
  {
    hide ByteSize;
    assert (s.chunks + [[]])[..|s.chunks|] == s.chunks;
    assert [] + [x] == [x];
  }

  lemma EmptyLegible()
    ensures Legible([])
  {
    AlignedLegible([]);
  }

  lemma HistoryOfNothing()
    ensures History([]) == [] + [Resume]
  {
  }

  lemma HistorySnoc(ss: seq<Sample>, x: Sample)
    ensures History(ss + [x]) == History(ss) + [Op.Append(x)]
  {
    assert (ss + [x])[..|ss|] == ss;
  }

  lemma SizeInBytes(w: BitWriter, ss: seq<Sample>)
    requires Holds(w, History(ss))
    ensures |w.stream| == ByteSize(ss)
  {
    HeldBytes(w, History(ss));
  }

  /** The chunk about to be appended to is far below the 16-bit sample limit. */
  lemma CountBelowLimit(before: Series, now: Series, n: nat)
    requires WellFormedSeries(before) && n < |now.chunks|
    requires now == (if CutsBefore(before) then before.(chunks := before.chunks + [[]]) else before)
    requires n == |now.chunks| - 1
    ensures |now.chunks[n]| <= 3974
  {
    hide ByteSize, WellCut;
    if n < |before.chunks| {
      WellCutBounds(before.chunks[n]);
    }
  }
}
