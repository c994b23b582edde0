/** Persistent blocks: creation from series, and queries. */
module BlockModel {
  import opened Words
  import opened Wrappers
  import opened Sorting
  import opened SortedSets
  import opened XorCode
  import opened LabelSets
  import opened MemSeriesModel
  import opened Queries
  import opened ChunkFiles
  import opened IndexFormat
  import opened IndexFiles
  import opened PostingAlgebra

  datatype ChunkInput = ChunkInput(minTime: i64, maxTime: i64, bytes: seq<byte>)

  datatype SeriesInput = SeriesInput(labels: Labels, chunks: seq<ChunkInput>)

  datatype BlockMeta = BlockMeta(ulid: Str, minTime: i64, maxTime: i64, numSamples: nat, numSeries: nat, numChunks: nat,
                                 level: nat, sources: seq<Str>)

  datatype Block = Block(meta: BlockMeta, index: seq<byte>, chunks: seq<seq<byte>>)

  /** `Unspecified` is none of the source's: see `Varint.ReadError`. */
  datatype BlockError = NotSupported | InvalidArgument | BadIndex | BadChunk | IoError | Unspecified

  // ---- What is written -------------------------------------------------------

  /** Series without chunks are left out. */
  function Kept(inputs: seq<SeriesInput>): seq<SeriesInput> {
    if inputs == [] then []
    else Kept(inputs[..|inputs| - 1]) + (if inputs[|inputs| - 1].chunks == [] then [] else [inputs[|inputs| - 1]])
  }

  function ChunkList(cs: seq<ChunkInput>): (r: seq<Chunk>)
    ensures |r| == |cs| && forall j :: 0 <= j < |cs| ==> r[j] == Chunk(XOR_ENCODING, cs[j].bytes)
  {
    seq(|cs|, j requires 0 <= j < |cs| => Chunk(XOR_ENCODING, cs[j].bytes))
  }

  /** All chunks in the order they are written. */
  function FlatChunks(ks: seq<SeriesInput>): seq<Chunk> {
    if ks == [] then [] else FlatChunks(ks[..|ks| - 1]) + ChunkList(ks[|ks| - 1].chunks)
  }

  function ChunkFilesOf(ks: seq<SeriesInput>): (r: (seq<seq<byte>>, seq<(nat, nat)>))
    ensures |r.1| == |FlatChunks(ks)|
  {
    WroteAll(FlatChunks(ks), DEFAULT_CHUNKS_SEGMENT_SIZE)
  }

  function MetasAt(cs: seq<ChunkInput>, refs: seq<(nat, nat)>, base: nat): (r: seq<ChunkMeta>)
    requires base + |cs| <= |refs|
    ensures |r| == |cs| && forall j :: 0 <= j < |cs| ==>
      r[j] == ChunkMeta(cs[j].minTime, cs[j].maxTime, Packed(RefOf(refs[base + j].0, refs[base + j].1)))
  {
    seq(|cs|, j requires 0 <= j < |cs| =>
      ChunkMeta(cs[j].minTime, cs[j].maxTime, Packed(RefOf(refs[base + j].0, refs[base + j].1))))
  }

  lemma {:induction false} FlatAt(ks: seq<SeriesInput>, i: nat)
    requires i < |ks|
    ensures |FlatChunks(ks[..i])| + |ks[i].chunks| <= |FlatChunks(ks)|
    ensures forall j :: 0 <= j < |ks[i].chunks| ==>
      FlatChunks(ks)[|FlatChunks(ks[..i])| + j] == Chunk(XOR_ENCODING, ks[i].chunks[j].bytes)
    decreases |ks|
  {
    if i < |ks| - 1 {
      assert ks[..|ks| - 1][..i] == ks[..i];
      FlatAt(ks[..|ks| - 1], i);
    }
  }

  function MetasOf(ks: seq<SeriesInput>, i: nat): (r: seq<ChunkMeta>)
    requires i < |ks|
    ensures |r| == |ks[i].chunks|
  {
    FlatAt(ks, i);
    MetasAt(ks[i].chunks, ChunkFilesOf(ks).1, |FlatChunks(ks[..i])|)
  }

  function Strings(ls: seq<Label>): seq<Str> {
    if ls == [] then [] else Strings(ls[..|ls| - 1]) + [ls[|ls| - 1].key, ls[|ls| - 1].val]
  }

  function AllStrings(ks: seq<SeriesInput>): seq<Str> {
    if ks == [] then [] else AllStrings(ks[..|ks| - 1]) + Strings(ks[|ks| - 1].labels)
  }

  /** Every name and value once, in order, and the empty string. */
  function SymbolsOf(ks: seq<SeriesInput>): seq<Str> {
    SortUnique(Less, [[]] + AllStrings(ks))
  }

  function Position(ss: seq<Str>, s: Str): (i: nat)
    ensures s in ss ==> i < |ss| && ss[i] == s
  {
    if ss == [] || ss[0] == s then 0 else 1 + Position(ss[1..], s)
  }

  function LabelRefs(syms: seq<Str>, ls: seq<Label>): (r: seq<(u32, u32)>)
    ensures |r| == |ls|
    ensures forall k :: 0 <= k < |ls| ==> r[k] == (Position(syms, ls[k].key) % TWO32, Position(syms, ls[k].val) % TWO32)
  {
    seq(|ls|, k requires 0 <= k < |ls| => (Position(syms, ls[k].key) % TWO32, Position(syms, ls[k].val) % TWO32))
  }

  function SeriesDataOf(ks: seq<SeriesInput>, i: nat): SeriesData
    requires i < |ks|
  {
    SeriesData(LabelRefs(SymbolsOf(ks), ks[i].labels), MetasOf(ks, i))
  }

  function SeriesContent(ks: seq<SeriesInput>): (c: IndexContent)
    ensures |c.series| == |ks| && forall i :: 0 <= i < |ks| ==> c.series[i] == SeriesDataOf(ks, i)
    ensures c.symbols == SymbolsOf(ks)
  {
    IndexContent(SymbolsOf(ks), seq(|ks|, i requires 0 <= i < |ks| => SeriesDataOf(ks, i)), [])
  }

  function RowsOf(ks: seq<SeriesInput>): (r: seq<Row>)
    ensures |r| == |ks| && forall i :: 0 <= i < |ks| ==> r[i] == Row(SeriesId(SeriesContent(ks), i), ks[i].labels)
  {
    var c := SeriesContent(ks);
    seq(|ks|, i requires 0 <= i < |ks| => Row(SeriesId(c, i), ks[i].labels))
  }

  type NameValue = (Str, Str)

  predicate PairLess(a: NameValue, b: NameValue) {
    Less(a.0, b.0) || (a.0 == b.0 && Less(a.1, b.1))
  }

  function PairsIn(ls: seq<Label>): seq<NameValue> {
    if ls == [] then [] else PairsIn(ls[..|ls| - 1]) + [(ls[|ls| - 1].key, ls[|ls| - 1].val)]
  }

  function AllPairs(ks: seq<SeriesInput>): seq<NameValue> {
    if ks == [] then [] else AllPairs(ks[..|ks| - 1]) + PairsIn(ks[|ks| - 1].labels)
  }

  /** Every label of every series once, in the order of an ordered map. */
  function PairsOf(ks: seq<SeriesInput>): seq<NameValue> {
    SortUnique(PairLess, AllPairs(ks))
  }

  function PostingsList(ks: seq<SeriesInput>): (r: seq<PostingData>)
    ensures |r| == |PairsOf(ks)|
    ensures forall j :: 0 <= j < |r| ==>
      r[j] == PostingData(PairsOf(ks)[j].0, PairsOf(ks)[j].1, IdsOf(RowsOf(ks), Pair(PairsOf(ks)[j].0, PairsOf(ks)[j].1)))
  {
    var ps := PairsOf(ks);
    seq(|ps|, j requires 0 <= j < |ps| => PostingData(ps[j].0, ps[j].1, IdsOf(RowsOf(ks), Pair(ps[j].0, ps[j].1))))
  }

  function ContentOf(ks: seq<SeriesInput>): IndexContent {
    SeriesContent(ks).(postings := PostingsList(ks))
  }

  // ---- Metadata --------------------------------------------------------------

  function AllInputs(ks: seq<SeriesInput>): seq<ChunkInput> {
    if ks == [] then [] else AllInputs(ks[..|ks| - 1]) + ks[|ks| - 1].chunks
  }

  function MinOf(cs: seq<ChunkInput>): i64 {
    if cs == [] then 0x7FFF_FFFF_FFFF_FFFF
    else
      var m := MinOf(cs[..|cs| - 1]);
      if cs[|cs| - 1].minTime < m then cs[|cs| - 1].minTime else m
  }

  function MaxOf(cs: seq<ChunkInput>): i64 {
    if cs == [] then -0x8000_0000_0000_0000
    else
      var m := MaxOf(cs[..|cs| - 1]);
      if cs[|cs| - 1].maxTime > m then cs[|cs| - 1].maxTime else m
  }

  /** Samples by the counts in the first two bytes of the chunks. */
  function CountOf(cs: seq<ChunkInput>): nat {
    if cs == [] then 0
    else
      var b := cs[|cs| - 1].bytes;
      CountOf(cs[..|cs| - 1]) + (if |b| >= 2 then BeValue(b[..2]) else 0)
  }

  function MetaFor(ulid: Str, ks: seq<SeriesInput>): BlockMeta {
    var cs := AllInputs(ks);
    BlockMeta(ulid, if ks == [] then 0 else MinOf(cs), if ks == [] then 0 else MaxOf(cs), CountOf(cs), |ks|, |cs|, 1, [ulid])
  }

  function CreatedBlock(ulid: Str, inputs: seq<SeriesInput>): Block {
    var ks := Kept(inputs);
    Block(MetaFor(ulid, ks), IndexFile(ContentOf(ks)), ChunkFilesOf(ks).0)
  }

  /** The block's time range is the smallest one that covers the ranges of its chunks. */
  lemma {:induction false} RangeCovers(cs: seq<ChunkInput>)
    ensures forall i :: 0 <= i < |cs| ==> MinOf(cs) <= cs[i].minTime && cs[i].maxTime <= MaxOf(cs)
    ensures cs != [] ==> (exists i :: 0 <= i < |cs| && cs[i].minTime == MinOf(cs)) && exists i :: 0 <= i < |cs| && cs[i].maxTime == MaxOf(cs)
  {
    if cs != [] {
      var init, last := cs[..|cs| - 1], cs[|cs| - 1];
      RangeCovers(init);
      assert cs[|cs| - 1] == last;
      assert forall i :: 0 <= i < |init| ==> init[i] == cs[i];
      if init == [] {
        assert MaxOf(init) == -0x8000_0000_0000_0000 <= cs[0].maxTime && MinOf(init) >= cs[0].minTime;
        assert cs[0].minTime == MinOf(cs) && cs[0].maxTime == MaxOf(cs);
      } else {
        var i :| 0 <= i < |init| && init[i].minTime == MinOf(init);
        var j :| 0 <= j < |init| && init[j].maxTime == MaxOf(init);
        assert cs[i].minTime == MinOf(init) && cs[j].maxTime == MaxOf(init);
      }
    }
  }

  // ---- Sound contents --------------------------------------------------------

  /** The sizes of a block fit the fields of its files. */
  predicate FitsBlock(ks: seq<SeriesInput>) {
    && FitsFormat(ContentOf(ks))
    && |FlatChunks(ks)| < TWO32 - 1 && forall i :: 0 <= i < |FlatChunks(ks)| ==> |FlatChunks(ks)[i].data| < TWO64
  }

  lemma {:induction false} ResolvedBack(syms: seq<Str>, ls: seq<Label>)
    requires |syms| < TWO32 && forall k :: 0 <= k < |ls| ==> ls[k].key in syms && ls[k].val in syms
    ensures forall k :: 0 <= k < |ls| ==> LabelRefs(syms, ls)[k].0 < |syms| && LabelRefs(syms, ls)[k].1 < |syms|
    ensures Resolved(LabelRefs(syms, ls), syms) == ls
    decreases |ls|
  {
    forall k | 0 <= k < |ls|
      ensures LabelRefs(syms, ls)[k] == (Position(syms, ls[k].key), Position(syms, ls[k].val))
    {
      ModSmall(Position(syms, ls[k].key), TWO32);
      ModSmall(Position(syms, ls[k].val), TWO32);
    }
    if ls != [] {
      assert LabelRefs(syms, ls)[1..] == LabelRefs(syms, ls[1..]);
      ResolvedBack(syms, ls[1..]);
      assert [ls[0]] + ls[1..] == ls;
    }
  }

  lemma PairLessStrictTotal()
    ensures StrictTotal(PairLess)
  {
    LessStrictTotal();
  }

  lemma {:induction false} PairsInMembers(ls: seq<Label>)
    ensures forall p :: p in PairsIn(ls) <==> exists k :: 0 <= k < |ls| && p == (ls[k].key, ls[k].val)
  {
    if ls != [] {
      var init := ls[..|ls| - 1];
      PairsInMembers(init);
      assert forall k :: 0 <= k < |init| ==> init[k] == ls[k];
    }
  }

  ghost predicate PairSomewhere(ks: seq<SeriesInput>, p: NameValue) {
    exists i, k :: 0 <= i < |ks| && 0 <= k < |ks[i].labels| && p == (ks[i].labels[k].key, ks[i].labels[k].val)
  }

  lemma {:induction false} AllPairsMembers(ks: seq<SeriesInput>)
    ensures forall p :: p in AllPairs(ks) <==> PairSomewhere(ks, p)
  {
    hide PairsIn;
    if ks != [] {
      var init, last := ks[..|ks| - 1], ks[|ks| - 1];
      AllPairsMembers(init);
      PairsInMembers(last.labels);
      forall p
        ensures PairSomewhere(ks, p) <==> PairSomewhere(init, p) || p in PairsIn(last.labels)
      {
        if i, k :| 0 <= i < |ks| && 0 <= k < |ks[i].labels| && p == (ks[i].labels[k].key, ks[i].labels[k].val) {
          assert i < |init| ==> init[i] == ks[i];
        }
        if i, k :| 0 <= i < |init| && 0 <= k < |init[i].labels| && p == (init[i].labels[k].key, init[i].labels[k].val) {
          assert ks[i] == init[i];
        }
        if k :| 0 <= k < |last.labels| && p == (last.labels[k].key, last.labels[k].val) {
          assert ks[|ks| - 1] == last;
        }
      }
    }
  }

  lemma PairsMeaning(ks: seq<SeriesInput>)
    ensures Ascends(PairLess, PairsOf(ks)) && forall p :: p in PairsOf(ks) <==> PairSomewhere(ks, p)
  {
    hide SortUnique, AllPairs, PairSomewhere;
    PairLessStrictTotal();
    SortUniqueMeaning(PairLess, AllPairs(ks));
    AllPairsMembers(ks);
  }

  /** The symbols are the empty string and every name and value, once each and in byte order. */
  lemma SymbolsMeaning(ks: seq<SeriesInput>)
    ensures InByteOrder(SymbolsOf(ks))
    ensures forall s :: s in SymbolsOf(ks) <==> s == [] || Somewhere(ks, s)
  {
    hide SortUnique, AllStrings, Less, Precedes, Somewhere;
    var syms := SymbolsOf(ks);
    LessStrictTotal();
    SortUniqueMeaning(Less, [[]] + AllStrings(ks));
    forall i, j | 0 <= i < j < |syms|
      ensures Precedes(syms[i], syms[j])
    {
      LessMeaning(syms[i], syms[j]);
    }
    AllStringsMembers(ks);
  }

  /** The string is the name or the value of a label. */
  ghost predicate Somewhere(ks: seq<SeriesInput>, s: Str) {
    exists i, k :: 0 <= i < |ks| && 0 <= k < |ks[i].labels| && (s == ks[i].labels[k].key || s == ks[i].labels[k].val)
  }

  lemma {:induction false} StringsMembers(ls: seq<Label>)
    ensures forall s :: s in Strings(ls) <==> exists k :: 0 <= k < |ls| && (s == ls[k].key || s == ls[k].val)
  {
    if ls != [] {
      var init := ls[..|ls| - 1];
      StringsMembers(init);
      assert forall k :: 0 <= k < |init| ==> init[k] == ls[k];
    }
  }

  lemma {:induction false} AllStringsMembers(ks: seq<SeriesInput>)
    ensures forall s :: s in AllStrings(ks) <==> Somewhere(ks, s)
  {
    hide Strings;
    if ks != [] {
      var init, last := ks[..|ks| - 1], ks[|ks| - 1];
      AllStringsMembers(init);
      StringsMembers(last.labels);
      forall s
        ensures Somewhere(ks, s) <==> Somewhere(init, s) || s in Strings(last.labels)
      {
        SomewhereSnoc(ks, s);
      }
    }
  }

  lemma SomewhereSnoc(ks: seq<SeriesInput>, s: Str)
    requires ks != []
    ensures var init, ls := ks[..|ks| - 1], ks[|ks| - 1].labels;
      Somewhere(ks, s) <==> Somewhere(init, s) || exists k :: 0 <= k < |ls| && (s == ls[k].key || s == ls[k].val)
  {
    var init, last := ks[..|ks| - 1], ks[|ks| - 1];
    if i, k :| 0 <= i < |ks| && 0 <= k < |ks[i].labels| && (s == ks[i].labels[k].key || s == ks[i].labels[k].val) {
      assert i < |init| ==> init[i] == ks[i];
    }
    if i, k :| 0 <= i < |init| && 0 <= k < |init[i].labels| && (s == init[i].labels[k].key || s == init[i].labels[k].val) {
      assert ks[i] == init[i];
    }
    if k :| 0 <= k < |last.labels| && (s == last.labels[k].key || s == last.labels[k].val) {
      assert ks[|ks| - 1] == last;
    }
  }

  /** The posting lists are written by name, and under one name by value. */
  lemma PairsInOrder(ks: seq<SeriesInput>, i: nat, j: nat)
    requires i < j < |PairsOf(ks)|
    ensures var p, q := PairsOf(ks)[i], PairsOf(ks)[j];
      Precedes(p.0, q.0) || (p.0 == q.0 && Precedes(p.1, q.1))
  {
    hide PairsOf, Less, Precedes;
    PairsMeaning(ks);
    var p, q := PairsOf(ks)[i], PairsOf(ks)[j];
    LessMeaning(p.0, q.0);
    LessMeaning(p.1, q.1);
    assert PairLess(p, q);
  }

  /** Every label of every series is among the symbols. */
  lemma SymbolThere(ks: seq<SeriesInput>, i: nat, k: nat)
    requires i < |ks| && k < |ks[i].labels|
    ensures ks[i].labels[k].key in SymbolsOf(ks) && ks[i].labels[k].val in SymbolsOf(ks)
  {
    hide SymbolsOf;
    SymbolsMeaning(ks);
    assert Somewhere(ks, ks[i].labels[k].key) && Somewhere(ks, ks[i].labels[k].val);
  }

  /** What creation hands to the index writer can be read back. */
  lemma ContentSound(ks: seq<SeriesInput>)
    requires FitsFormat(ContentOf(ks))
    ensures SoundContent(ContentOf(ks))
  {
    hide FitsFormat, SymbolsOf, PairsOf, MetasOf, IdsOf, RowsOf, LabelRefs;
    var c := ContentOf(ks);
    FewSymbols(c);
    forall i | 0 <= i < |c.series|
      ensures RefsExist(c.series[i], |c.symbols|)
    {
      SeriesResolved(ks, i);
    }
  }

  lemma FewSymbols(c: IndexContent)
    requires FitsFormat(c)
    ensures |c.symbols| < TWO32 && |IndexFile(c)| <= SERIES_ALIGN * TWO32
  {
    hide SymbolPayload, TablePayload, IndexFile, FitsSeries, FitsPosting;
  }

  lemma SeriesResolved(ks: seq<SeriesInput>, i: nat)
    requires i < |ks| && |SymbolsOf(ks)| < TWO32
    ensures RefsExist(SeriesDataOf(ks, i), |SymbolsOf(ks)|)
    ensures Canonicalized(Resolved(LabelRefs(SymbolsOf(ks), ks[i].labels), SymbolsOf(ks))) == ks[i].labels
  {
    hide SymbolsOf, MetasOf, Canonicalized, Resolved;
    forall k | 0 <= k < |ks[i].labels|
      ensures ks[i].labels[k].key in SymbolsOf(ks) && ks[i].labels[k].val in SymbolsOf(ks)
    {
      SymbolThere(ks, i, k);
    }
    ResolvedBack(SymbolsOf(ks), ks[i].labels);
    CanonicalStays(ks[i].labels);
  }

  // ---- The created index -----------------------------------------------------

  function IndexOf(ks: seq<SeriesInput>): Result<Index, IndexError> {
    ParseIndex(IndexFile(ContentOf(ks)))
  }

  lemma SameIds(ks: seq<SeriesInput>, i: nat)
    requires i < |ks|
    ensures SeriesId(SeriesContent(ks), i) == SeriesId(ContentOf(ks), i) && ContentOf(ks).series[i] == SeriesDataOf(ks, i)
  {
    hide SeriesStart, Head, SymbolsOf, SeriesDataOf, PairsOf, IdsOf;
  }

  lemma RowsAscending(ks: seq<SeriesInput>)
    requires FitsFormat(ContentOf(ks))
    ensures RowsAscend(RowsOf(ks))
  {
    hide FitsFormat, SeriesId, ContentOf, SeriesContent, IndexFile;
    var rows := RowsOf(ks);
    SameLength(ks);
    FewSymbols(ContentOf(ks));
    forall i, j | 0 <= i < j < |rows|
      ensures rows[i].id < rows[j].id
    {
      SameIds(ks, i);
      SameIds(ks, j);
      SeriesIdsAscend(ContentOf(ks), i, j);
    }
  }

  lemma SameLength(ks: seq<SeriesInput>)
    ensures |ContentOf(ks).series| == |ks| && ContentOf(ks).symbols == SymbolsOf(ks) && ContentOf(ks).postings == PostingsList(ks)
  {
    hide SymbolsOf, SeriesDataOf, PairsOf, IdsOf;
  }

  /** The index of a created block opens, its table is the labels of its series, and under every
      one of them it holds exactly the series that have it. */
  lemma BlockRepresents(ks: seq<SeriesInput>)
    requires FitsFormat(ContentOf(ks))
    ensures IndexOf(ks).Ok? && Represents(IndexOf(ks).value, RowsOf(ks))
    ensures TablePairs(IndexOf(ks).value.table) == PairsOf(ks)
  {
    hide FitsFormat, SoundContent, ContentOf, RowsOf, ParseIndex, IndexFile, TableOf, PairsOf, Knows,
      TocFor, ReadPostingList, RowsAscend, Readable, AllListed;
    var c := ContentOf(ks);
    ContentSound(ks);
    IndexOpens(c);
    RowsAscending(ks);
    SameLength(ks);
    var x := IndexOf(ks).value;
    forall j | 0 <= j < |x.table|
      ensures Readable(x, RowsOf(ks), x.table[j])
    {
      PostingsRead(c, j);
      ReadableBy(x, RowsOf(ks), x.table[j]);
    }
    forall i | 0 <= i < |RowsOf(ks)|
      ensures AllListed(x.table, RowsOf(ks)[i].labels)
    {
      LabelsListed(ks, c, x, i);
    }
    PairsListed(ks, c);
  }

  lemma PairsListed(ks: seq<SeriesInput>, c: IndexContent)
    requires c == ContentOf(ks) && SoundContent(c)
    ensures TablePairs(TableOf(c)) == PairsOf(ks)
  {
    hide SoundContent, ContentOf, TableOf, PairsOf, SeriesId, SeriesContent, ReadPostingList, IndexFile;
    SameLength(ks);
    forall j | 0 <= j < |PairsOf(ks)|
      ensures TablePairs(TableOf(c))[j] == PairsOf(ks)[j]
    {
      PostingsRead(c, j);
    }
  }

  lemma ReadableBy(x: Index, rows: seq<Row>, e: TableEntry)
    requires ReadPostingList(x.file, e.offset) == Ok(IdsOf(rows, Pair(e.name, e.value)))
    ensures Readable(x, rows, e)
  {
  }

  lemma LabelsListed(ks: seq<SeriesInput>, c: IndexContent, x: Index, i: nat)
    requires i < |RowsOf(ks)| && c == ContentOf(ks) && SoundContent(c) && x.table == TableOf(c)
    ensures AllListed(x.table, RowsOf(ks)[i].labels)
  {
    hide SoundContent, ContentOf, TableOf, PairsOf, SeriesId, SeriesContent, ReadPostingList, IndexFile;
    var ls := ks[i].labels;
    SameLength(ks);
    PairsMeaning(ks);
    forall k | 0 <= k < |ls|
      ensures HasEntry(x.table, ls[k].key, ls[k].val)
    {
      assert PairSomewhere(ks, (ls[k].key, ls[k].val));
      var j :| 0 <= j < |PairsOf(ks)| && PairsOf(ks)[j] == (ls[k].key, ls[k].val);
      PostingsRead(c, j);
      assert x.table[j].name == ls[k].key && x.table[j].value == ls[k].val;
    }
  }

  /** Every series is found under its identifier. */
  lemma BlockSeries(ks: seq<SeriesInput>, i: nat)
    requires FitsFormat(ContentOf(ks)) && i < |ks|
    ensures IndexOf(ks).Ok?
    ensures SeriesOf(IndexOf(ks).value, RowsOf(ks)[i].id) == Ok(SeriesEntry(ks[i].labels, MetasOf(ks, i)))
  {
    hide FitsFormat, SoundContent, ContentOf, ParseIndex, IndexFile, SeriesOf, SymbolsOf, SeriesId, SeriesContent, MetasOf,
      Canonicalized, Resolved, LabelRefs;
    ContentSound(ks);
    SameIds(ks, i);
    SameLength(ks);
    FewSymbols(ContentOf(ks));
    SeriesFound(ContentOf(ks), i);
    SeriesResolved(ks, i);
  }

  // ---- The created chunk files -----------------------------------------------

  lemma {:induction false} FewSegments(cs: seq<Chunk>, size: nat)
    ensures |WroteAll(cs, size).0| <= |cs| + 1
  {
    hide Framed;
    if cs != [] {
      FewSegments(cs[..|cs| - 1], size);
    }
  }

  /** Every chunk is found under the reference its index entry holds. */
  lemma BlockChunk(ks: seq<SeriesInput>, i: nat, j: nat)
    requires i < |ks| && j < |ks[i].chunks|
    requires |FlatChunks(ks)| < TWO32 - 1 && forall k :: 0 <= k < |FlatChunks(ks)| ==> |FlatChunks(ks)[k].data| < TWO64
    ensures var u := Unpacked(MetasOf(ks, i)[j].ref);
      ReadChunk(ChunkFilesOf(ks).0, u.seqNo, u.offset) == Ok(Chunk(XOR_ENCODING, ks[i].chunks[j].bytes))
  {
    hide WroteAll, FlatChunks, ReadChunk;
    var cs, size := FlatChunks(ks), DEFAULT_CHUNKS_SEGMENT_SIZE;
    FlatAt(ks, i);
    var n := |FlatChunks(ks[..i])| + j;
    ChunksReadBack(cs, size, n);
    SegmentsSound(cs, size);
    FewSegments(cs, size);
    var ref := WroteAll(cs, size).1[n];
    RefFits(ref.0, ref.1);
    UnpackedPacked(RefOf(ref.0, ref.1));
  }

  lemma RefFits(s: nat, offset: nat)
    requires s < TWO32 && offset < TWO32
    ensures RefOf(s, offset) == Ref(s, offset)
  {
  }

  // ---- Queries ---------------------------------------------------------------

  /** The chunks of a series entry that overlap a time range. Segments that are loaded already do
      not have their header checked. */
  function ReadMetas(files: seq<seq<byte>>, loaded: set<nat>, metas: seq<ChunkMeta>, mint: i64, maxt: i64)
    : Result<(seq<seq<byte>>, seq<ChunkMeta>), BlockError>
  {
    if metas == [] then Ok(([], []))
    else match ReadMetas(files, loaded, metas[..|metas| - 1], mint, maxt)
      case Err(e) => Err(e)
      case Ok((bytes, ms)) =>
        var m := metas[|metas| - 1];
        if !Overlaps(m.minTime, m.maxTime, mint, maxt) then Ok((bytes, ms))
        else match ReadLoaded(files, loaded, Unpacked(m.ref).seqNo, Unpacked(m.ref).offset)
          case Err(_) => Err(BadChunk)
          case Ok(c) => if c.encoding != XOR_ENCODING then Err(BlockError.NotSupported) else Ok((bytes + [c.data], ms + [m]))
  }

  /** One series by its identifier. */
  function SelectId(x: Index, files: seq<seq<byte>>, loaded: set<nat>, id: nat, mint: i64, maxt: i64): Result<seq<QueryResult>, BlockError> {
    match SeriesOf(x, id)
    case Err(_) => Err(BadIndex)
    case Ok(entry) =>
      match ReadMetas(files, loaded, entry.chunks, mint, maxt)
      case Err(e) => Err(e)
      case Ok((bytes, metas)) => Ok(if bytes == [] then [] else [QueryResult(entry.labels, bytes, metas)])
  }

  function SelectIds(x: Index, files: seq<seq<byte>>, loaded: set<nat>, ids: seq<nat>, mint: i64, maxt: i64)
    : Result<seq<QueryResult>, BlockError>
  {
    if ids == [] then Ok([])
    else match SelectIds(x, files, loaded, ids[..|ids| - 1], mint, maxt)
      case Err(e) => Err(e)
      case Ok(rs) => match SelectId(x, files, loaded, ids[|ids| - 1], mint, maxt) case Err(e) => Err(e) case Ok(more) => Ok(rs + more)
  }

  function Selected(b: Block, ms: seq<Matcher>, mint: i64, maxt: i64): Result<seq<QueryResult>, BlockError> {
    if ms == [] then Err(BlockError.InvalidArgument)
    else match ParseIndex(b.index)
      case Err(_) => Err(BadIndex)
      case Ok(x) =>
        match Narrowed(x, ms) case Err(_) => Err(BadIndex) case Ok(ids) => SelectIds(x, b.chunks, {}, ids, mint, maxt)
  }

  /** The positions of the metadata that meets a range, in order. */
  ghost predicate MetasAtRange(metas: seq<ChunkMeta>, picks: seq<nat>, mint: i64, maxt: i64) {
    && (forall i, j :: 0 <= i < j < |picks| ==> picks[i] < picks[j])
    && forall i: nat :: i in picks <==> i < |metas| && metas[i].minTime <= maxt && mint <= metas[i].maxTime
  }

  /** At each position the metadata itself and the data of the chunk it refers to. */
  ghost predicate ReadAs(files: seq<seq<byte>>, loaded: set<nat>, metas: seq<ChunkMeta>, picks: seq<nat>,
                         out: (seq<seq<byte>>, seq<ChunkMeta>)) {
    && |out.0| == |out.1| == |picks|
    && forall j :: 0 <= j < |picks| ==>
         picks[j] < |metas| && out.1[j] == metas[picks[j]] && ReadsAs(files, loaded, metas[picks[j]].ref, out.0[j])
  }

  ghost predicate ReadsAs(files: seq<seq<byte>>, loaded: set<nat>, ref: u64, data: seq<byte>) {
    ReadLoaded(files, loaded, Unpacked(ref).seqNo, Unpacked(ref).offset) == Ok(Chunk(XOR_ENCODING, data))
  }

  /** The metadata read for a range is exactly that which meets it, in order, each with the data
      of the chunk it refers to. */
  lemma {:induction false} ReadMetasMeaning(files: seq<seq<byte>>, loaded: set<nat>, metas: seq<ChunkMeta>, mint: i64, maxt: i64)
    returns (picks: seq<nat>)
    requires ReadMetas(files, loaded, metas, mint, maxt).Ok?
    ensures MetasAtRange(metas, picks, mint, maxt)
    ensures ReadAs(files, loaded, metas, picks, ReadMetas(files, loaded, metas, mint, maxt).value)
  {
    hide ReadLoaded, Unpacked, MetasAtRange, ReadAs;
    if metas == [] {
      picks := [];
      NoneRead(files, loaded, mint, maxt);
    } else {
      var n := |metas| - 1;
      var before := ReadMetasMeaning(files, loaded, metas[..n], mint, maxt);
      MetasSnoc(metas, before, mint, maxt);
      var out, m := ReadMetas(files, loaded, metas[..n], mint, maxt).value, metas[n];
      if m.minTime <= maxt && mint <= m.maxTime {
        picks := before + [n];
        ReadSnoc(files, loaded, metas, before, out, ReadLoaded(files, loaded, Unpacked(m.ref).seqNo, Unpacked(m.ref).offset).value.data);
      } else {
        picks := before;
        ReadSame(files, loaded, metas, before, out);
      }
    }
  }

  lemma NoneRead(files: seq<seq<byte>>, loaded: set<nat>, mint: i64, maxt: i64)
    ensures MetasAtRange([], [], mint, maxt) && ReadAs(files, loaded, [], [], ([], []))
  {
  }

  lemma MetasSnoc(metas: seq<ChunkMeta>, before: seq<nat>, mint: i64, maxt: i64)
    requires metas != [] && MetasAtRange(metas[..|metas| - 1], before, mint, maxt)
    ensures var n := |metas| - 1;
      MetasAtRange(metas, if metas[n].minTime <= maxt && mint <= metas[n].maxTime then before + [n] else before, mint, maxt)
  {
    var n := |metas| - 1;
    assert forall i :: 0 <= i < n ==> metas[..n][i] == metas[i];
    assert (before + [n])[|before|] == n && forall j :: 0 <= j < |before| ==> before[j] in before;
  }

  lemma ReadSnoc(files: seq<seq<byte>>, loaded: set<nat>, metas: seq<ChunkMeta>, picks: seq<nat>,
                 out: (seq<seq<byte>>, seq<ChunkMeta>), data: seq<byte>)
    requires metas != [] && ReadAs(files, loaded, metas[..|metas| - 1], picks, out)
    requires ReadsAs(files, loaded, metas[|metas| - 1].ref, data)
    ensures ReadAs(files, loaded, metas, picks + [|metas| - 1], (out.0 + [data], out.1 + [metas[|metas| - 1]]))
  {
    hide ReadsAs;
  }

  lemma ReadSame(files: seq<seq<byte>>, loaded: set<nat>, metas: seq<ChunkMeta>, picks: seq<nat>, out: (seq<seq<byte>>, seq<ChunkMeta>))
    requires metas != [] && ReadAs(files, loaded, metas[..|metas| - 1], picks, out)
    ensures ReadAs(files, loaded, metas, picks, out)
  {
    hide ReadsAs;
  }

  /** Whatever the files hold: what a query returns lists at least one chunk, and every one it
      lists meets the queried range. */
  lemma {:induction false} SelectIdsMeetRange(x: Index, files: seq<seq<byte>>, loaded: set<nat>, ids: seq<nat>, mint: i64, maxt: i64)
    requires SelectIds(x, files, loaded, ids, mint, maxt).Ok?
    ensures forall r :: r in SelectIds(x, files, loaded, ids, mint, maxt).value ==>
      && |r.chunks| == |r.metas| > 0
      && forall k :: 0 <= k < |r.metas| ==> r.metas[k].minTime <= maxt && mint <= r.metas[k].maxTime
  {
    hide ReadMetas, SeriesOf;
    if ids != [] {
      SelectIdsMeetRange(x, files, loaded, ids[..|ids| - 1], mint, maxt);
      var metas := SeriesOf(x, ids[|ids| - 1]).value.chunks;
      var picks := ReadMetasMeaning(files, loaded, metas, mint, maxt);
      forall j | 0 <= j < |picks|
        ensures metas[picks[j]].minTime <= maxt && mint <= metas[picks[j]].maxTime
      {
        assert picks[j] in picks;
      }
    }
  }

  lemma SelectedMeetRange(b: Block, ms: seq<Matcher>, mint: i64, maxt: i64)
    requires Selected(b, ms, mint, maxt).Ok?
    ensures forall r :: r in Selected(b, ms, mint, maxt).value ==>
      && |r.chunks| == |r.metas| > 0
      && forall k :: 0 <= k < |r.metas| ==> r.metas[k].minTime <= maxt && mint <= r.metas[k].maxTime
  {
    hide SelectIds, Narrowed, ParseIndex;
    var x := ParseIndex(b.index).value;
    SelectIdsMeetRange(x, b.chunks, {}, Narrowed(x, ms).value, mint, maxt);
  }

  /** Segments loaded with a sound header make no difference to later queries. */
  lemma {:induction false} MetasAlike(files: seq<seq<byte>>, loaded: set<nat>, more: set<nat>, metas: seq<ChunkMeta>, mint: i64, maxt: i64)
    requires AddsSound(files, loaded, more)
    ensures ReadMetas(files, more, metas, mint, maxt) == ReadMetas(files, loaded, metas, mint, maxt)
  {
    hide ReadLoaded, Unpacked, AddsSound;
    if metas != [] {
      MetasAlike(files, loaded, more, metas[..|metas| - 1], mint, maxt);
      var u := Unpacked(metas[|metas| - 1].ref);
      LoadedAlike(files, loaded, more, u.seqNo, u.offset);
    }
  }

  lemma {:induction false} QueriesAlike(x: Index, files: seq<seq<byte>>, loaded: set<nat>, more: set<nat>, ids: seq<nat>, mint: i64, maxt: i64)
    requires AddsSound(files, loaded, more)
    ensures SelectIds(x, files, more, ids, mint, maxt) == SelectIds(x, files, loaded, ids, mint, maxt)
  {
    hide ReadMetas, SeriesOf, AddsSound;
    if ids != [] {
      QueriesAlike(x, files, loaded, more, ids[..|ids| - 1], mint, maxt);
      match SeriesOf(x, ids[|ids| - 1])
      case Err(_) =>
      case Ok(entry) => MetasAlike(files, loaded, more, entry.chunks, mint, maxt);
    }
  }

  /** The chunks of an input series that overlap a time range, under the references they got. */
  function InRange(cs: seq<ChunkInput>, metas: seq<ChunkMeta>, mint: i64, maxt: i64): (r: (seq<seq<byte>>, seq<ChunkMeta>))
    requires |cs| == |metas|
  {
    if cs == [] then ([], [])
    else
      var (bytes, ms) := InRange(cs[..|cs| - 1], metas[..|cs| - 1], mint, maxt);
      var m := metas[|cs| - 1];
      if Overlaps(m.minTime, m.maxTime, mint, maxt) then (bytes + [cs[|cs| - 1].bytes], ms + [m]) else (bytes, ms)
  }

  /** One series, by looking at its labels instead of at posting lists. */
  function BlockAnswer(ps: Pairs, k: SeriesInput, metas: seq<ChunkMeta>, ms: seq<Matcher>, mint: i64, maxt: i64): seq<QueryResult>
    requires |k.chunks| == |metas|
  {
    var (bytes, found) := InRange(k.chunks, metas, mint, maxt);
    if Holds(ByAll(ps, ms), k.labels) && bytes != [] then [QueryResult(k.labels, bytes, found)] else []
  }

  /** The answers of the first `n` series, in the order they were given. */
  function BlockAnswers(ks: seq<SeriesInput>, n: nat, ms: seq<Matcher>, mint: i64, maxt: i64): seq<QueryResult>
    requires n <= |ks|
  {
    if n == 0 then []
    else BlockAnswers(ks, n - 1, ms, mint, maxt) + BlockAnswer(PairsOf(ks), ks[n - 1], MetasOf(ks, n - 1), ms, mint, maxt)
  }

  lemma {:induction false} MetasRead(ks: seq<SeriesInput>, i: nat, n: nat, mint: i64, maxt: i64)
    requires i < |ks| && n <= |ks[i].chunks|
    requires |FlatChunks(ks)| < TWO32 - 1 && forall k :: 0 <= k < |FlatChunks(ks)| ==> |FlatChunks(ks)[k].data| < TWO64
    ensures ReadMetas(ChunkFilesOf(ks).0, {}, MetasOf(ks, i)[..n], mint, maxt)
         == Ok(InRange(ks[i].chunks[..n], MetasOf(ks, i)[..n], mint, maxt))
    decreases n
  {
    hide FlatChunks, ReadChunk, MetasOf, ChunkFilesOf, Unpacked;
    if n > 0 {
      MetasRead(ks, i, n - 1, mint, maxt);
      BlockChunk(ks, i, n - 1);
      var metas, cs := MetasOf(ks, i), ks[i].chunks;
      assert metas[..n][..n - 1] == metas[..n - 1] && cs[..n][..n - 1] == cs[..n - 1];
    }
  }

  lemma SelectIdIs(ks: seq<SeriesInput>, i: nat, ms: seq<Matcher>, mint: i64, maxt: i64)
    requires FitsBlock(ks) && i < |ks| && Holds(ByAll(PairsOf(ks), ms), ks[i].labels)
    ensures IndexOf(ks).Ok?
    ensures SelectId(IndexOf(ks).value, ChunkFilesOf(ks).0, {}, RowsOf(ks)[i].id, mint, maxt)
         == Ok(BlockAnswer(PairsOf(ks), ks[i], MetasOf(ks, i), ms, mint, maxt))
  {
    hide FitsFormat, ContentOf, IndexOf, SeriesOf, RowsOf, MetasOf, ReadMetas, InRange, Holds, FlatChunks, ChunkFilesOf;
    BlockSeries(ks, i);
    MetasRead(ks, i, |ks[i].chunks|, mint, maxt);
    assert MetasOf(ks, i)[..|ks[i].chunks|] == MetasOf(ks, i) && ks[i].chunks[..|ks[i].chunks|] == ks[i].chunks;
  }

  lemma SelectIdsSnoc(x: Index, files: seq<seq<byte>>, loaded: set<nat>, ids: seq<nat>, id: nat, mint: i64, maxt: i64)
    ensures SelectIds(x, files, loaded, ids + [id], mint, maxt) == match SelectIds(x, files, loaded, ids, mint, maxt)
      case Err(e) => Err(e)
      case Ok(rs) => match SelectId(x, files, loaded, id, mint, maxt) case Err(e) => Err(e) case Ok(more) => Ok(rs + more)
  {
    hide SelectId;
    assert (ids + [id])[..|ids|] == ids;
  }

  lemma IdsOfStep(rows: seq<Row>, n: nat, t: Test)
    requires 0 < n <= |rows|
    ensures IdsOf(rows[..n], t) ==
      IdsOf(rows[..n - 1], t) + (if Holds(t, rows[n - 1].labels) then [rows[n - 1].id] else [])
  {
    hide Holds;
    assert rows[..n][..n - 1] == rows[..n - 1];
  }

  lemma {:induction false} SelectIdsAre(ks: seq<SeriesInput>, n: nat, ms: seq<Matcher>, mint: i64, maxt: i64)
    requires FitsBlock(ks) && n <= |ks|
    ensures IndexOf(ks).Ok?
    ensures SelectIds(IndexOf(ks).value, ChunkFilesOf(ks).0, {}, IdsOf(RowsOf(ks)[..n], ByAll(PairsOf(ks), ms)), mint, maxt)
         == Ok(BlockAnswers(ks, n, ms, mint, maxt))
    decreases n
  {
    hide FitsBlock, IndexOf, SelectIds, BlockAnswers, ChunkFilesOf, RowsOf, IdsOf;
    IndexThere(ks);
    if n == 0 {
      assert RowsOf(ks)[..0] == [];
      NoIds(ByAll(PairsOf(ks), ms));
      NothingSelected(ks, ms, mint, maxt);
    } else {
      SelectIdsAre(ks, n - 1, ms, mint, maxt);
      SelectOneMore(ks, n, ms, mint, maxt);
    }
  }

  lemma NothingSelected(ks: seq<SeriesInput>, ms: seq<Matcher>, mint: i64, maxt: i64)
    requires IndexOf(ks).Ok?
    ensures SelectIds(IndexOf(ks).value, ChunkFilesOf(ks).0, {}, [], mint, maxt) == Ok([]) && BlockAnswers(ks, 0, ms, mint, maxt) == []
  {
    hide IndexOf, ChunkFilesOf, MetasOf;
  }

  /** One row more, looked up or passed over. */
  lemma SelectOneMore(ks: seq<SeriesInput>, n: nat, ms: seq<Matcher>, mint: i64, maxt: i64)
    requires FitsBlock(ks) && 0 < n <= |ks| && IndexOf(ks).Ok?
    requires SelectIds(IndexOf(ks).value, ChunkFilesOf(ks).0, {}, IdsOf(RowsOf(ks)[..n - 1], ByAll(PairsOf(ks), ms)), mint, maxt)
          == Ok(BlockAnswers(ks, n - 1, ms, mint, maxt))
    ensures SelectIds(IndexOf(ks).value, ChunkFilesOf(ks).0, {}, IdsOf(RowsOf(ks)[..n], ByAll(PairsOf(ks), ms)), mint, maxt)
         == Ok(BlockAnswers(ks, n, ms, mint, maxt))
  {
    hide FitsBlock, IndexOf, SelectId, SelectIds, MetasOf, BlockAnswer, Holds, ChunkFilesOf, SeriesId, SeriesContent, IdsOf;
    IdsOfStep(RowsOf(ks), n, ByAll(PairsOf(ks), ms));
    var ids := IdsOf(RowsOf(ks)[..n - 1], ByAll(PairsOf(ks), ms));
    if Holds(ByAll(PairsOf(ks), ms), ks[n - 1].labels) {
      SelectIdIs(ks, n - 1, ms, mint, maxt);
      SelectIdsSnoc(IndexOf(ks).value, ChunkFilesOf(ks).0, {}, ids, RowsOf(ks)[n - 1].id, mint, maxt);
    } else {
      NoAnswer(ks, n - 1, ms, mint, maxt);
      assert ids + [] == ids && BlockAnswers(ks, n - 1, ms, mint, maxt) + [] == BlockAnswers(ks, n - 1, ms, mint, maxt);
    }
  }

  lemma IndexThere(ks: seq<SeriesInput>)
    requires FitsBlock(ks)
    ensures IndexOf(ks).Ok? && Represents(IndexOf(ks).value, RowsOf(ks))
  {
    hide FitsFormat, ContentOf, IndexOf, Represents, RowsOf, FlatChunks, TablePairs, PairsOf;
    BlockRepresents(ks);
  }

  /** The posting lists of a created block leave the series that all matchers accept. */
  lemma BlockNarrows(ks: seq<SeriesInput>, ms: seq<Matcher>)
    requires FitsBlock(ks) && ms != []
    ensures IndexOf(ks).Ok?
    ensures Narrowed(IndexOf(ks).value, ms) == Ok(IdsOf(RowsOf(ks), ByAll(PairsOf(ks), ms)))
  {
    hide FitsFormat, ContentOf, IndexOf, Represents, RowsOf, FlatChunks, TablePairs, PairsOf, Narrowed, IdsOf;
    BlockRepresents(ks);
    NarrowedIs(IndexOf(ks).value, RowsOf(ks), ms);
  }

  lemma NoIds(t: Test)
    ensures IdsOf([], t) == []
  {
  }

  lemma NoAnswer(ks: seq<SeriesInput>, i: nat, ms: seq<Matcher>, mint: i64, maxt: i64)
    requires i < |ks| && !Holds(ByAll(PairsOf(ks), ms), ks[i].labels)
    ensures BlockAnswer(PairsOf(ks), ks[i], MetasOf(ks, i), ms, mint, maxt) == []
  {
    hide Holds, MetasOf, InRange;
  }

  /** Querying a created block gives, for every list of matchers and every time range, exactly the
      series whose labels they accept with the chunks that overlap, in the order the series were
      given: the bytes on disk answer as the values do. */
  lemma SelectedIs(ulid: Str, inputs: seq<SeriesInput>, ms: seq<Matcher>, mint: i64, maxt: i64)
    requires FitsBlock(Kept(inputs))
    requires ms != []
    ensures Selected(CreatedBlock(ulid, inputs), ms, mint, maxt) == Ok(BlockAnswers(Kept(inputs), |Kept(inputs)|, ms, mint, maxt))
  {
    hide FitsBlock, Kept, ContentOf, ParseIndex, IndexFile, RowsOf, Narrowed, SelectIds, BlockAnswers, IdsOf, ChunkFilesOf, MetaFor,
      PairsOf;
    var ks := Kept(inputs);
    BlockNarrows(ks, ms);
    SelectIdsAre(ks, |ks|, ms, mint, maxt);
    assert RowsOf(ks)[..|ks|] == RowsOf(ks);
  }
}
