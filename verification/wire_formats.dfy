/** The bytes on disk, written out: for each format the places and numbers that other readers of
    the same files count on. */
module WireFormats {
  import opened Words
  import opened Wrappers
  import opened BigEndian
  import opened Sorting
  import opened LabelSets
  import opened Bstream
  import opened XorCode
  import opened XorChunks
  import opened MemSeriesModel
  import opened Queries
  import Varint
  import Crc32c
  import P = Pages
  import R = WalRecords
  import C = ChunkFiles
  import F = IndexFormat
  import I = IndexFiles

  // ---- Variable-length integers ----------------------------------------------

  /** Groups of seven bits, the lowest first, with the top bit on all but the last. */
  lemma {:induction false} UvarintGroups(x: nat)
    ensures var bs := Varint.Uvarint(x);
      && (forall i :: 0 <= i < |bs| - 1 ==> bs[i] >= 0x80) && bs[|bs| - 1] < 0x80
      && (x >= 0x80 ==> bs[|bs| - 1] > 0)
      && forall i :: 0 <= i < |bs| ==> bs[i] % 0x80 == Words.Shr(x, 7 * i) % 0x80
  {
    if x >= 0x80 {
      var bs, more := Varint.Uvarint(x), Varint.Uvarint(x / 0x80);
      UvarintGroups(x / 0x80);
      assert bs == [x % 0x80 + 0x80] + more;
      forall i | 0 <= i < |bs|
        ensures bs[i] % 0x80 == Words.Shr(x, 7 * i) % 0x80
      {
        if i > 0 {
          ShrGroup(x, i - 1);
          assert bs[i] == more[i - 1];
        }
      }
    }
  }

  lemma ShrGroup(x: nat, i: nat)
    ensures Words.Shr(x, 7 * (i + 1)) == Words.Shr(x / 0x80, 7 * i)
  {
    assert Pow2(7) == 128;
    hide Words.Shr, Pow2;
    ShrDiv(x, 7 * (i + 1));
    ShrDiv(x / 0x80, 7 * i);
    Pow2Add(7, 7 * i);
    DivDiv(x, 128, Pow2(7 * i));
  }

  // ---- Log records -----------------------------------------------------------

  /** A series record of one series with the label a = b under reference 258. */
  lemma SeriesRecordBytes()
    ensures R.EncodeSeries([R.RefSeries(258, [Entry([97], [98])])]) == [1, 0, 0, 0, 0, 0, 0, 1, 2, 1, 1, 97, 1, 98]
  {
    hide *;
    var l: Label := Entry([97], [98]);
    OneLabelBytes();
    Word258();
    OneByteVarint(1);
    OneSeries(258, [l]);
    assert [1] + ([0, 0, 0, 0, 0, 0, 1, 2] + [1] + [1, 97, 1, 98]) == [1, 0, 0, 0, 0, 0, 0, 1, 2, 1, 1, 97, 1, 98];
  }

  lemma OneByteVarint(x: nat)
    requires x < 0x80
    ensures Varint.Uvarint(x) == [x]
  {
  }

  lemma OneLabelBytes()
    ensures R.EncLabels([Entry([97], [98])]) == [1, 97, 1, 98]
  {
    var l: Label := Entry([97], [98]);
    assert [l][1..] == [];
  }

  lemma Word258()
    ensures ToBe(258, 8) == [0, 0, 0, 0, 0, 0, 1, 2]
  {
    hide ToBe;
    EightBytes(258);
  }

  lemma OneSeries(ref: u64, ls: seq<Label>)
    ensures R.EncodeSeries([R.RefSeries(ref, ls)]) == [1] + (ToBe(ref, 8) + Varint.Uvarint(|ls|) + R.EncLabels(ls))
  {
    hide ToBe, Varint.Uvarint, R.EncLabels;
    var x := R.RefSeries(ref, ls);
    assert [x][1..] == [] && R.EncEntries([]) == [];
    assert R.EncEntry(x) + [] == R.EncEntry(x);
  }

  function SampleSeries(): seq<R.RefSample> {
    [R.RefSample(1, 1000, 5, 0), R.RefSample(3, 1015, 5, 1), R.RefSample(2, 990, 7, 2), R.RefSample(2, 991, 0, 3)]
  }

  /** The first sample in full; of each later one the reference from the one before, the time from
      the first, and a mark for the start time: the same, an explicit one, or none. */
  lemma SamplesRecordBytes()
    ensures R.EncodeSamples(SampleSeries()) ==
      [11] + [2, 208, 15, 10, 0, 0, 0, 0, 0, 0, 0, 0]
      + [4, 30, 1, 0, 0, 0, 0, 0, 0, 0, 1]
      + [1, 19, 2, 4, 0, 0, 0, 0, 0, 0, 0, 2]
      + [0, 17, 0, 0, 0, 0, 0, 0, 0, 0, 3]
  {
    hide R.EncodeSamples, R.EncFirst, R.EncNext;
    FirstBytes();
    SecondBytes();
    ThirdBytes();
    FourthBytes();
    FourSamples(R.RefSample(1, 1000, 5, 0), R.RefSample(3, 1015, 5, 1), R.RefSample(2, 990, 7, 2), R.RefSample(2, 991, 0, 3));
  }

  lemma TwoByteVarint()
    ensures Varint.Uvarint(2000) == [208, 15]
  {
    OneByteVarint(15);
  }

  lemma FirstBytes()
    ensures R.EncFirst(R.RefSample(1, 1000, 5, 0)) == [2, 208, 15, 10, 0, 0, 0, 0, 0, 0, 0, 0]
  {
    hide ToBe, Varint.Uvarint;
    EightBytes(0);
    OneByteVarint(2);
    TwoByteVarint();
    OneByteVarint(10);
  }

  lemma SecondBytes()
    ensures R.EncNext(R.RefSample(1, 1000, 5, 0), R.RefSample(1, 1000, 5, 0), R.RefSample(3, 1015, 5, 1))
         == [4, 30, 1, 0, 0, 0, 0, 0, 0, 0, 1]
  {
    hide ToBe, Varint.Uvarint;
    EightBytes(1);
    OneByteVarint(4);
    OneByteVarint(30);
  }

  lemma ThirdBytes()
    ensures R.EncNext(R.RefSample(1, 1000, 5, 0), R.RefSample(3, 1015, 5, 1), R.RefSample(2, 990, 7, 2))
         == [1, 19, 2, 4, 0, 0, 0, 0, 0, 0, 0, 2]
  {
    hide ToBe, Varint.Uvarint;
    EightBytes(2);
    OneByteVarint(1);
    OneByteVarint(19);
    OneByteVarint(4);
  }

  lemma FourthBytes()
    ensures R.EncNext(R.RefSample(1, 1000, 5, 0), R.RefSample(2, 990, 7, 2), R.RefSample(2, 991, 0, 3))
         == [0, 17, 0, 0, 0, 0, 0, 0, 0, 0, 3]
  {
    hide ToBe, Varint.Uvarint;
    EightBytes(3);
    OneByteVarint(0);
    OneByteVarint(17);
  }

  lemma FourSamples(a: R.RefSample, b: R.RefSample, c: R.RefSample, d: R.RefSample)
    ensures R.EncodeSamples([a, b, c, d]) == [11] + R.EncFirst(a) + R.EncNext(a, a, b) + R.EncNext(a, b, c) + R.EncNext(a, c, d)
  {
    hide R.EncFirst, R.EncNext;
    assert [a, b, c, d][1..] == [b, c, d] && [b, c, d][1..] == [c, d] && [c, d][1..] == [d] && [d][1..] == [];
    assert R.EncRest(a, d, []) == [];
    assert R.EncRest(a, c, [d]) == R.EncNext(a, c, d);
    assert R.EncRest(a, b, [c, d]) == R.EncNext(a, b, c) + R.EncNext(a, c, d);
  }

  // ---- Pages of the log ------------------------------------------------------

  /** A fragment: its kind, the length of its data, the checksum of the data, and the data. */
  function FragmentBytes(kind: byte, data: seq<byte>): seq<byte>
    requires |data| <= 32761
  {
    [kind, |data| / 256, |data| % 256] + ToBe(Crc32c.Compute(data), 4) + data
  }

  /** A record at the start of a page of 32768 bytes: whole as kind 1, else in parts of which the
      first is of kind 2, the last of kind 4 and all between them of kind 3. */
  lemma RecordBytes(b: seq<byte>)
    ensures |b| <= 32761 ==> P.Frame(0, b) == FragmentBytes(1, b)
    ensures 32761 < |b| <= 65522 ==> P.Frame(0, b) == FragmentBytes(2, b[..32761]) + FragmentBytes(4, b[32761..])
    ensures 65522 < |b| <= 98283 ==>
      P.Frame(0, b) == FragmentBytes(2, b[..32761]) + (FragmentBytes(3, b[32761..65522]) + FragmentBytes(4, b[65522..]))
  {
    hide FragmentBytes, P.Frag, P.Continue;
    if |b| <= 32761 {
      FragIs(1, b);
    } else {
      FragIs(2, b[..32761]);
      RestBytes(b[32761..]);
      if |b| > 65522 {
        assert b[32761..][..32761] == b[32761..65522] && b[32761..][32761..] == b[65522..];
      }
    }
  }

  lemma RestBytes(b: seq<byte>)
    requires b != []
    ensures |b| <= 32761 ==> P.Continue(b) == FragmentBytes(4, b)
    ensures 32761 < |b| <= 65522 ==> P.Continue(b) == FragmentBytes(3, b[..32761]) + FragmentBytes(4, b[32761..])
  {
    hide FragmentBytes, P.Frag;
    if |b| <= 32761 {
      FragIs(4, b);
    } else if |b| <= 65522 {
      FragIs(3, b[..32761]);
      FragIs(4, b[32761..]);
    }
  }

  lemma FragIs(kind: byte, data: seq<byte>)
    requires |data| <= 32761
    ensures P.Frag(kind, data) == FragmentBytes(kind, data)
  {
    hide ToBe, Crc32c.Compute;
    TwoBytes(|data|);
  }

  // ---- Chunk files -----------------------------------------------------------

  /** The first chunk of a directory: behind the magic number, the version and three zeros its
      length, its encoding, its data and the checksum of the last two; under file 0, offset 8. */
  lemma ChunkFileBytes(data: seq<byte>, size: nat)
    ensures C.WroteAll([C.Chunk(C.XOR_ENCODING, data)], size) ==
      ([[0x85, 0xBD, 0x40, 0xDD, 1, 0, 0, 0] + (Varint.Uvarint(|data|) + [1] + data + ToBe(Crc32c.Compute([1] + data), 4))], [(0, 8)])
  {
    hide Varint.Uvarint, ToBe, Crc32c.Compute;
    var c := C.Chunk(C.XOR_ENCODING, data);
    assert [c][..0] == [] && C.WroteAll([], size) == ([C.SEGMENT_HEADER], []);
    assert [C.SEGMENT_HEADER][0 := C.SEGMENT_HEADER + C.Framed(c)] == [C.SEGMENT_HEADER + C.Framed(c)];
    assert C.Wrote([C.SEGMENT_HEADER], c, size) == ([C.SEGMENT_HEADER + C.Framed(c)], 0, 8);
    var none: seq<(nat, nat)> := [];
    assert none + [(0, 8)] == [(0, 8)];
  }

  /** A reference holds the file in its upper half and the offset in its lower one. */
  lemma ReferenceBits()
    ensures C.Packed(C.Ref(0x12345678, 0x9ABCDEF0)) == 0x12345678_9ABCDEF0
  {
  }

  // ---- Index files -----------------------------------------------------------

  /** Magic number, version 2, then the symbols with their length in front and their checksum
      behind. */
  lemma IndexHead(c: I.IndexContent) returns (rest: seq<byte>)
    ensures var p := F.SymbolPayload(c.symbols);
      I.IndexFile(c) == [0xBA, 0xAA, 0xD7, 0x00, 2] + (ToBe(|p|, 4) + p + ToBe(Crc32c.Compute(p), 4)) + rest
  {
    hide I.IndexFile, F.SymbolPayload, ToBe, Crc32c.Compute, I.SeriesBlock, I.BeforeTable, I.TableOf, I.TocFor;
    var afterHead, afterSeries, afterPostings := I.FileParts(c);
    rest := afterHead;
  }

  /** The last 52 bytes: the places of the symbols, the series, the label indices and their table,
      the postings and their table, and the checksum of these 48 bytes. */
  lemma IndexFoot(c: I.IndexContent)
    requires I.SoundContent(c)
    ensures var file, places := I.IndexFile(c), Places(c);
      |file| >= 52 && file[|file| - 52..] == places + ToBe(Crc32c.Compute(places), 4)
  {
    hide I.SoundContent, Places, ToBe, Crc32c.Compute, I.IndexFile, I.BeforeTable, I.TocBody, F.Section;
    var afterHead, afterSeries, afterPostings := I.FileParts(c);
    TocIsPlaces(c);
    var foot := I.TocBytes(I.TocFor(c));
    Ends(I.BeforeTable(c) + F.Section(I.TablePayload(I.TableOf(c))), foot);
  }

  lemma Ends(a: seq<byte>, b: seq<byte>)
    ensures (a + b)[|a + b| - |b|..] == b
  {
  }

  /** Symbols start behind the five bytes of magic number and version. Series start on the next
      16-byte boundary, postings on the one after the series; label indices are not written. */
  function Places(c: I.IndexContent): seq<byte> {
    var series := |if c.series == [] then I.Head(c.symbols) else I.Padded(I.Head(c.symbols), 16)|;
    var postings := |I.Padded(I.SeriesBlock(I.Head(c.symbols), c.series), 16)|;
    ToBe(5, 8) + ToBe(series, 8) + ToBe(postings, 8) + ToBe(postings, 8) + ToBe(postings, 8) + ToBe(|I.BeforeTable(c)|, 8)
  }

  lemma TocIsPlaces(c: I.IndexContent)
    requires I.SoundContent(c)
    ensures I.TocBody(I.TocFor(c)) == Places(c)
  {
    hide I.SoundContent, I.Head, I.SeriesBlock, I.BeforeTable, ToBe, I.IndexFile, I.PostingsBlock, I.FitsFormat;
    SmallPlaces(c);
  }

  lemma SmallPlaces(c: I.IndexContent)
    requires I.SoundContent(c)
    ensures |I.Padded(I.Head(c.symbols), 16)| < TWO64 && |I.BeforeTable(c)| < TWO64
    ensures |I.Padded(I.SeriesBlock(I.Head(c.symbols), c.series), 16)| < TWO64
  {
    hide I.SoundContent, I.Head, I.SeriesBlock, I.PostingsBlock, I.FitsFormat, F.Section, I.TocBytes;
    I.EntriesCountable(c);
    var more := I.PostingsBlockGrows(I.BeforePostings(c), c.postings);
    var grown := I.SeriesBlockGrows(I.Head(c.symbols), c.series);
  }

  /** Symbols, posting lists, table entries and series entries of a small index. */
  lemma SymbolBytes()
    ensures F.SymbolPayload([[], [97], [98, 99]]) == [0, 0, 0, 3, 0, 1, 97, 2, 98, 99]
  {
    hide ToBe;
    FourBytes(3);
    var ss: seq<Str> := [[], [97], [98, 99]];
    assert ss[1..] == [[97], [98, 99]] && ss[1..][1..] == [[98, 99]] && ss[1..][1..][1..] == [];
    assert F.EncStrs([[98, 99]]) == [2, 98, 99];
    assert F.EncStrs([[97], [98, 99]]) == [1, 97] + [2, 98, 99];
  }

  lemma PostingBytes()
    ensures I.PostingPayload([1, 258]) == [0, 0, 0, 2, 0, 0, 0, 1, 0, 0, 1, 2]
  {
    hide ToBe;
    FourBytes(2);
    TwoIds();
  }

  lemma TwoIds()
    ensures I.EncIds([1, 258]) == [0, 0, 0, 1, 0, 0, 1, 2]
  {
    hide ToBe;
    FourBytes(1);
    FourBytes(258);
    assert [1, 258][..1] == [1] && [1][..0] == [] && I.EncIds([]) == [];
    assert I.EncIds([1]) == [] + [0, 0, 0, 1];
  }

  lemma TableEntryBytes()
    ensures I.EncTableEntry(I.TableEntry([97], [98], 300)) == [2, 1, 97, 1, 98, 172, 2]
  {
    hide Varint.Uvarint;
    OneByteVarint(1);
    OneByteVarint(2);
    Varint300();
  }

  lemma Varint300()
    ensures Varint.Uvarint(300) == [172, 2]
  {
    OneByteVarint(2);
  }

  /** One label, then two chunks: the first with its times and its reference in full, the second
      from the end and the reference of the first. */
  lemma SeriesEntryBytes()
    ensures F.SeriesPayload(F.SeriesData([(1, 2)], [ChunkMeta(10, 30, 8), ChunkMeta(35, 45, 6)]))
         == [1, 1, 2, 2, 20, 20, 8, 5, 10, 3]
  {
    hide Varint.Uvarint;
    var m, n := ChunkMeta(10, 30, 8), ChunkMeta(35, 45, 6);
    OneByteVarint(1);
    OneByteVarint(2);
    OneByteVarint(3);
    OneByteVarint(5);
    OneByteVarint(8);
    OneByteVarint(10);
    OneByteVarint(20);
    assert [(1, 2)][1..] == [] && F.EncRefs([]) == [] && F.EncRefs([(1, 2)]) == [1, 2];
    assert [m, n][1..] == [n] && [n][1..] == [] && F.EncMetas(n, []) == [];
    assert F.EncNextMeta(m, n) == [5, 10, 3] && F.EncFirstMeta(m) == [20, 20, 8];
    assert F.EncMetas(m, [n]) == [5, 10, 3];
  }

  // ---- A chunk ---------------------------------------------------------------

  function ThreeSamples(): seq<Sample> {
    [Sample(0, 0), Sample(15, 0), Sample(30, 1)]
  }

  /** Three samples: the first in full, the second by its step and a zero bit, the third by a zero
      bit for the same step and a new window of 33 bits behind 31 zeros. */
  lemma ChunkOfThree()
    ensures BytesOf(ThreeSamples()) == [0, 3] + [0, 0, 0, 0, 0, 0, 0, 0, 0] + [15] + [63, 194, 0, 0, 0, 1]
  {
    hide *;
    ThreeBits();
    PayloadBits();
    PackedWhole([0, 0, 0, 0, 0, 0, 0, 0, 0] + [15] + [63, 194, 0, 0, 0, 1]);
    ThreeBytes();
  }

  lemma ThreeBytes()
    ensures |ThreeSamples()| <= MAX_SAMPLES && BytesOf(ThreeSamples()) == [0, 3] + Pack(BitsOf(ThreeSamples()))
  {
    hide Encode, History, Pack;
    HistorySamples(ThreeSamples());
  }

  lemma PackedWhole(bs: seq<byte>)
    ensures Pack(BytesBits(bs)) == bs
  {
    hide Pack, BytesBits;
    PackUnique(bs, 0);
    assert BytesBits(bs)[..8 * |bs|] == BytesBits(bs);
  }

  /** What the three samples are encoded as, field by field. */
  lemma ThreeBits()
    ensures BitsOf(ThreeSamples()) == BytesBits([0]) + ToBits(0, 64) + (BytesBits([15]) + [false])
      + ([false] + ([true, true] + ToBits(31, 5) + ToBits(33, 6) + ToBits(1, 33)))
  {
    hide BitsOf, Encode, EncSample, NextCodec, BytesBits, ToBits, History;
    var a, b, c := Sample(0, 0), Sample(15, 0), Sample(30, 1);
    NoBitsYet();
    assert [] + [a] == [a] && [a] + [b] == [a, b] && [a, b] + [c] == ThreeSamples();
    NextState([], a);
    FirstCode();
    NextState([a], b);
    SecondCode();
    NextState([a, b], c);
    ThirdCode();
    assert [] + (BytesBits([0]) + ToBits(0, 64)) == BytesBits([0]) + ToBits(0, 64);
  }

  lemma NoBitsYet()
    ensures BitsOf([]) == [] && Encode(History([])).codec == ENC_INIT
  {
    HistorySamples([]);
  }

  lemma FirstCode()
    ensures EncSample(0, ENC_INIT, Sample(0, 0)) == BytesBits([0]) + ToBits(0, 64)
    ensures NextCodec(0, ENC_INIT, Sample(0, 0)) == Codec(0, 0, 0, NO_WINDOW, 0)
  {
    hide BytesBits, ToBits;
  }

  lemma SecondCode()
    ensures var c := Codec(0, 0, 0, NO_WINDOW, 0);
      && EncSample(1, c, Sample(15, 0)) == BytesBits([15]) + [false]
      && NextCodec(1, c, Sample(15, 0)) == Codec(15, 0, 15, NO_WINDOW, 0)
  {
    hide BytesBits, ToBits, CountlZero, CountrZero;
    XorSelf(0);
    SampleParts(1, Codec(0, 0, 0, NO_WINDOW, 0), Sample(15, 0));
    OneByteVarint(15);
  }

  lemma ThirdCode()
    ensures EncSample(2, Codec(15, 0, 15, NO_WINDOW, 0), Sample(30, 1))
         == [false] + ([true, true] + ToBits(31, 5) + ToBits(33, 6) + ToBits(1, 33))
  {
    hide ToBits, FreshLeading, CountrZero, CountlZero, Xor, FreshBits, EncValue, EncSample, NextLeading, NextTrailing;
    SampleParts(2, Codec(15, 0, 15, NO_WINDOW, 0), Sample(30, 1));
    XorZero(1);
    OneChanged();
  }

  lemma OneChanged()
    ensures EncValue(1, NO_WINDOW, 0) == [true, true] + ToBits(31, 5) + ToBits(33, 6) + ToBits(1, 33)
  {
    hide *;
    FreshNotReused();
    LowestBit();
    FreshShape(1);
  }

  lemma FreshNotReused()
    ensures EncValue(1, NO_WINDOW, 0) == FreshBits(1)
  {
    hide FreshBits, CountlZero, CountrZero, ToBits;
  }

  lemma LowestBit()
    ensures FreshLeading(1) == 31 && CountrZero(1) == 0 && Words.Shr(1, 0) == 1
  {
    assert BitLength(1) == 1 + BitLength(0) == 1;
  }

  /** The same bits as whole bytes. */
  lemma PayloadBits()
    ensures BytesBits([0]) + ToBits(0, 64) + (BytesBits([15]) + [false])
      + ([false] + ([true, true] + ToBits(31, 5) + ToBits(33, 6) + ToBits(1, 33)))
      == BytesBits([0, 0, 0, 0, 0, 0, 0, 0, 0] + [15] + [63, 194, 0, 0, 0, 1])
  {
    hide *;
    EightZeros();
    LastSix();
    var z: seq<byte> := [0, 0, 0, 0, 0, 0, 0, 0];
    assert [0] + z == [0, 0, 0, 0, 0, 0, 0, 0, 0];
    BytesBitsConcat([0], z);
    BytesBitsConcat([0] + z, [15]);
    BytesBitsConcat([0] + z + [15], [63, 194, 0, 0, 0, 1]);
    Reassociated(BytesBits([0]) + ToBits(0, 64), BytesBits([15]), ToBits(31, 5), ToBits(33, 6), ToBits(1, 33));
  }

  lemma Reassociated(u: Bits, v: Bits, x: Bits, y: Bits, z: Bits)
    ensures u + (v + [false]) + ([false] + ([true, true] + x + y + z)) == u + v + ([false, false, true, true] + x + y + z)
  {
  }

  lemma EightZeros()
    ensures BytesBits([0, 0, 0, 0, 0, 0, 0, 0]) == ToBits(0, 64)
  {
    var z: seq<byte> := [0, 0, 0, 0, 0, 0, 0, 0];
    hide BytesBits, BeValue, ToBits;
    BeValueBits(z);
    EightBytes(0);
    BeRoundTrip(0, 8);
  }

  lemma SixBytes()
    ensures BeValue([63, 194, 0, 0, 0, 1]) == 0x3FC2_0000_0001
  {
    var s: seq<byte> := [63, 194, 0, 0, 0, 1];
    assert s[..5] == [63, 194, 0, 0, 0] && s[..4] == [63, 194, 0, 0] && s[..3] == [63, 194, 0] && s[..2] == [63, 194] && s[..1] == [63];
    assert s[..5][..4] == s[..4] && s[..4][..3] == s[..3] && s[..3][..2] == s[..2] && s[..2][..1] == s[..1] && s[..1][..0] == [];
    assert BeValue(s[..1]) == 63;
    assert BeValue(s[..2]) == 63 * 256 + 194;
    assert BeValue(s[..3]) == 0x3FC200;
    assert BeValue(s[..4]) == 0x3FC20000;
    assert BeValue(s[..5]) == 0x3FC2000000;
  }

  lemma Joined(hi: nat, lo: nat, a: nat, b: nat, p: nat)
    requires Pow2(b) == p && lo < p
    ensures ToBits(hi * p + lo, a + b) == ToBits(hi, a) + ToBits(lo, b)
  {
    hide ToBits, Scale, Pow2;
    ScaleMul(hi, b);
    ToBitsJoin(hi, lo, a, b);
  }

  lemma LastSix()
    ensures BytesBits([63, 194, 0, 0, 0, 1]) == [false, false, true, true] + ToBits(31, 5) + ToBits(33, 6) + ToBits(1, 33)
  {
    FourBits();
    assert Pow2(5) == 32 && Pow2(6) == 64;
    hide BytesBits, BeValue, ToBits, Pow2;
    Pow2Values();
    Pow2Add(20, 13);
    SixBytes();
    BeValueBits([63, 194, 0, 0, 0, 1]);
    Joined(3, 31, 4, 5, 32);
    Joined(127, 33, 9, 6, 64);
    Joined(8161, 1, 15, 33, 0x2_0000_0000);
  }

  lemma FourBits()
    ensures ToBits(3, 4) == [false, false, true, true]
  {
  }

  // ---- What is refused -------------------------------------------------------

  /** An index file is refused when it is shorter than 57 bytes or has another magic number, then
      when its version is none of 1, 2 and 3. */
  lemma IndexRefused(file: seq<byte>)
    ensures |file| < 57 || file[..4] != [0xBA, 0xAA, 0xD7, 0x00] ==> I.ParseIndex(file) == Err(F.IllegalBytes)
    ensures |file| >= 57 && file[..4] == [0xBA, 0xAA, 0xD7, 0x00] && !(1 <= file[4] <= 3) ==> I.ParseIndex(file) == Err(F.IndexError.NotSupported)
  {
  }

  /** A chunk file is trusted for its first five bytes and its length. */
  lemma ChunkHeaderSound(seg: seq<byte>)
    ensures C.HeaderSound(seg) <==> |seg| >= 8 && seg[..5] == [0x85, 0xBD, 0x40, 0xDD, 1]
  {
    if |seg| >= 8 {
      assert seg[..5] == seg[..4] + [seg[4]];
      assert C.SEGMENT_HEADER[..4] == [0x85, 0xBD, 0x40, 0xDD];
    }
  }
}
