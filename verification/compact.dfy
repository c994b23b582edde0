/** Compaction: several blocks merged into one, the last input winning. */
module Compaction {
  import opened Words
  import opened Wrappers
  import opened Sorting
  import opened SortedSets
  import opened XorCode
  import opened XorChunks
  import opened LabelSets
  import opened MemSeriesModel
  import opened Queries
  import opened ChunkFiles
  import opened IndexFormat
  import opened IndexFiles
  import opened PostingAlgebra
  import opened BlockModel
  import opened HeadToBlock

  // ---- What is read from a block ---------------------------------------------

  /** All chunks of a series entry. */
  function LoadChunks(files: seq<seq<byte>>, metas: seq<ChunkMeta>): Result<seq<ChunkInput>, BlockError> {
    if metas == [] then Ok([])
    else match LoadChunks(files, metas[..|metas| - 1])
      case Err(e) => Err(e)
      case Ok(cs) =>
        var m := metas[|metas| - 1];
        match ReadChunk(files, Unpacked(m.ref).seqNo, Unpacked(m.ref).offset)
        case Err(_) => Err(BadChunk)
        case Ok(c) =>
          if c.encoding != XOR_ENCODING then Err(BlockError.NotSupported) else Ok(cs + [ChunkInput(m.minTime, m.maxTime, c.data)])
  }

  function LoadSeries(x: Index, files: seq<seq<byte>>, id: nat): Result<SeriesInput, BlockError> {
    match SeriesOf(x, id)
    case Err(_) => Err(BadIndex)
    case Ok(entry) =>
      match LoadChunks(files, entry.chunks) case Err(e) => Err(e) case Ok(cs) => Ok(SeriesInput(entry.labels, cs))
  }

  function LoadAll(x: Index, files: seq<seq<byte>>, ids: seq<nat>): Result<seq<SeriesInput>, BlockError> {
    if ids == [] then Ok([])
    else match LoadAll(x, files, ids[..|ids| - 1])
      case Err(e) => Err(e)
      case Ok(ks) => match LoadSeries(x, files, ids[|ids| - 1]) case Err(e) => Err(e) case Ok(k) => Ok(ks + [k])
  }

  /** Every series that some posting list mentions, by ascending identifier. */
  function Loaded(b: Block): Result<seq<SeriesInput>, BlockError> {
    match ParseIndex(b.index)
    case Err(_) => Err(BadIndex)
    case Ok(x) => match AllOf(x) case Err(_) => Err(BadIndex) case Ok(ids) => LoadAll(x, b.chunks, ids)
  }

  function LoadedAll(bs: seq<Block>): Result<seq<SeriesInput>, BlockError> {
    if bs == [] then Ok([])
    else match LoadedAll(bs[..|bs| - 1])
      case Err(e) => Err(e)
      case Ok(ks) => match Loaded(bs[|bs| - 1]) case Err(e) => Err(e) case Ok(more) => Ok(ks + more)
  }

  // ---- The merge -------------------------------------------------------------

  type TimeValue = Entry<i64, u64>

  predicate Earlier(a: i64, b: i64) {
    a < b
  }

  lemma EarlierStrictTotal()
    ensures StrictTotal(Earlier)
  {
  }

  function Timed(ss: seq<Sample>): (r: seq<TimeValue>)
    ensures |r| == |ss| && forall i :: 0 <= i < |ss| ==> r[i] == Entry(ss[i].t, ss[i].v)
  {
    seq(|ss|, i requires 0 <= i < |ss| => Entry(ss[i].t, ss[i].v))
  }

  function Untimed(es: seq<TimeValue>): (r: seq<Sample>)
    ensures |r| == |es| && forall i :: 0 <= i < |es| ==> r[i] == Sample(es[i].key, es[i].val)
  {
    seq(|es|, i requires 0 <= i < |es| => Sample(es[i].key, es[i].val))
  }

  predicate Decodable(cs: seq<ChunkInput>) {
    forall i :: 0 <= i < |cs| ==> DecodeChunk(cs[i].bytes).Some?
  }

  /** The samples of some chunks, chunk after chunk. */
  function SamplesIn(cs: seq<ChunkInput>): seq<TimeValue>
    requires Decodable(cs)
  {
    if cs == [] then [] else SamplesIn(cs[..|cs| - 1]) + Timed(DecodeChunk(cs[|cs| - 1].bytes).value)
  }

  /** The chunks collected for a label set, in block, series and chunk order. */
  function Gathered(ks: seq<SeriesInput>, ls: Labels): seq<ChunkInput> {
    if ks == [] then []
    else Gathered(ks[..|ks| - 1], ls) + (if ks[|ks| - 1].labels == ls then ks[|ks| - 1].chunks else [])
  }

  predicate AllDecodable(ks: seq<SeriesInput>) {
    forall i :: 0 <= i < |ks| ==> Decodable(ks[i].chunks)
  }

  lemma {:induction false} GatheredDecodable(ks: seq<SeriesInput>, ls: Labels)
    requires AllDecodable(ks)
    ensures Decodable(Gathered(ks, ls))
  {
    hide DecodeChunk;
    if ks != [] {
      GatheredDecodable(ks[..|ks| - 1], ls);
    }
  }

  /** Every chunk is gathered under the labels of its series. */
  lemma {:induction false} ChunkGathered(ks: seq<SeriesInput>, i: nat, j: nat)
    requires i < |ks| && j < |ks[i].chunks|
    ensures ks[i].chunks[j] in Gathered(ks, ks[i].labels)
    decreases |ks|
  {
    if i < |ks| - 1 {
      ChunkGathered(ks[..|ks| - 1], i, j);
    }
  }

  /** All chunks decode exactly when those of each label set do. */
  lemma DecodableByLabels(ks: seq<SeriesInput>)
    ensures AllDecodable(ks) <==> forall i :: 0 <= i < |ks| ==> Decodable(Gathered(ks, ks[i].labels))
  {
    hide DecodeChunk, Gathered;
    if AllDecodable(ks) {
      forall i | 0 <= i < |ks|
        ensures Decodable(Gathered(ks, ks[i].labels))
      {
        GatheredDecodable(ks, ks[i].labels);
      }
    } else {
      var i, j :| 0 <= i < |ks| && 0 <= j < |ks[i].chunks| && DecodeChunk(ks[i].chunks[j].bytes).None?;
      ChunkGathered(ks, i, j);
    }
  }

  function SamplesFor(ks: seq<SeriesInput>, ls: Labels): seq<TimeValue>
    requires AllDecodable(ks)
  {
    GatheredDecodable(ks, ls);
    SamplesIn(Gathered(ks, ls))
  }

  /** Sorted by time, the last sample of each time kept. */
  function Merged(ks: seq<SeriesInput>, ls: Labels): seq<TimeValue>
    requires AllDecodable(ks)
  {
    Collapse(Earlier, SamplesFor(ks, ls))
  }

  /** Appending samples one by one to an in-memory series. */
  function Recut(ls: Labels, es: seq<TimeValue>): Series {
    if es == [] then Series(0, ls, []) else Appended(Recut(ls, es[..|es| - 1]), Sample(es[|es| - 1].key, es[|es| - 1].val))
  }

  lemma {:induction false} RecutMeaning(ls: Labels, es: seq<TimeValue>)
    requires Ascending(Earlier, es)
    ensures WellFormedSeries(Recut(ls, es)) && Samples(Recut(ls, es)) == Untimed(es) && Recut(ls, es).labels == ls
    ensures forall n :: 0 <= n < |es| ==> !Refuses(Recut(ls, es[..n]), es[n].key)
    decreases |es|
  {
    hide WellFormedSeries, Appended, Samples;
    if es == [] {
      NoSamplesYet(ls);
    } else {
      var init, e := es[..|es| - 1], es[|es| - 1];
      RecutMeaning(ls, init);
      var s := Recut(ls, init);
      AppendedMeaning(s, Sample(e.key, e.val));
      AppendedLabels(s, Sample(e.key, e.val));
      assert Untimed(es) == Untimed(init) + [Sample(e.key, e.val)];
      if init != [] {
        assert Earlier(es[|init| - 1].key, e.key);
      }
      forall n | 0 <= n < |es|
        ensures !Refuses(Recut(ls, es[..n]), es[n].key)
      {
        if n < |init| {
          assert init[..n] == es[..n];
        }
      }
    }
  }

  lemma NoSamplesYet(ls: Labels)
    ensures WellFormedSeries(Series(0, ls, [])) && Samples(Series(0, ls, [])) == []
  {
  }

  lemma AppendedLabels(s: Series, x: Sample)
    ensures Appended(s, x).labels == s.labels
  {
    hide ByteSize;
  }

  /** The series written for a label set. */
  function Output(ks: seq<SeriesInput>, ls: Labels): SeriesInput
    requires AllDecodable(ks)
  {
    var s := Recut(ls, Merged(ks, ls));
    MergedAscending(ks, ls);
    RecutShort(ls, Merged(ks, ls));
    SeriesInput(ls, InputsOf(s.chunks))
  }

  /** The output made of some chunks. */
  function OutputOf(ls: Labels, cs: seq<ChunkInput>): SeriesInput
    requires Decodable(cs)
  {
    var es := Collapse(Earlier, SamplesIn(cs));
    EarlierStrictTotal();
    CollapseMeaning(Earlier, SamplesIn(cs));
    RecutShort(ls, es);
    SeriesInput(ls, InputsOf(Recut(ls, es).chunks))
  }

  lemma OutputIs(ks: seq<SeriesInput>, ls: Labels)
    requires AllDecodable(ks)
    ensures Decodable(Gathered(ks, ls)) && Output(ks, ls) == OutputOf(ls, Gathered(ks, ls))
  {
    hide Collapse, SamplesIn, InputsOf, Recut, Gathered;
    GatheredDecodable(ks, ls);
  }

  lemma MergedAscending(ks: seq<SeriesInput>, ls: Labels)
    requires AllDecodable(ks)
    ensures Ascending(Earlier, Merged(ks, ls)) && LastWins(Merged(ks, ls)) == LastWins(SamplesFor(ks, ls))
  {
    hide Collapse, SamplesFor, LastWins;
    EarlierStrictTotal();
    CollapseMeaning(Earlier, SamplesFor(ks, ls));
  }

  lemma RecutShort(ls: Labels, es: seq<TimeValue>)
    requires Ascending(Earlier, es)
    ensures Short(Recut(ls, es).chunks)
  {
    hide WellFormedSeries, Recut;
    RecutMeaning(ls, es);
    HeadBlocks.SoundChunks(Recut(ls, es));
  }

  ghost predicate Occurs(ks: seq<SeriesInput>, ls: Labels) {
    exists i :: 0 <= i < |ks| && ks[i].labels == ls
  }

  /** An order of the label sets, each once: how the source walks its hash map. */
  ghost predicate IsOrder(order: seq<Labels>, ks: seq<SeriesInput>) {
    && (forall i, j :: 0 <= i < j < |order| ==> order[i] != order[j])
    && (forall i :: 0 <= i < |ks| ==> ks[i].labels in order)
    && (forall n :: 0 <= n < |order| ==> Occurs(ks, order[n]))
  }

  function Outputs(ks: seq<SeriesInput>, order: seq<Labels>): (r: seq<SeriesInput>)
    requires AllDecodable(ks)
    ensures |r| == |order| && forall n :: 0 <= n < |order| ==> r[n] == Output(ks, order[n])
  {
    seq(|order|, n requires 0 <= n < |order| => Output(ks, order[n]))
  }

  function MaxLevel(bs: seq<Block>): nat {
    if bs == [] then 0
    else
      var m := MaxLevel(bs[..|bs| - 1]);
      if bs[|bs| - 1].meta.level > m then bs[|bs| - 1].meta.level else m
  }

  function SourcesIn(bs: seq<Block>): seq<Str> {
    if bs == [] then [] else SourcesIn(bs[..|bs| - 1]) + bs[|bs| - 1].meta.sources
  }

  /** The block that compaction writes. */
  function Compacted(ulid: Str, bs: seq<Block>, ks: seq<SeriesInput>, order: seq<Labels>): Block
    requires AllDecodable(ks)
  {
    var b := CreatedBlock(ulid, Outputs(ks, order));
    b.(meta := b.meta.(level := MaxLevel(bs) + 1, sources := SortUnique(Less, SourcesIn(bs))))
  }

  // ---- Reading a created block back ------------------------------------------

  function LabelledOnly(ks: seq<SeriesInput>): seq<SeriesInput> {
    if ks == [] then []
    else LabelledOnly(ks[..|ks| - 1]) + (if ks[|ks| - 1].labels == [] then [] else [ks[|ks| - 1]])
  }

  lemma {:induction false} ChunksLoad(ks: seq<SeriesInput>, i: nat, n: nat)
    requires i < |ks| && n <= |ks[i].chunks|
    requires |FlatChunks(ks)| < TWO32 - 1 && forall k :: 0 <= k < |FlatChunks(ks)| ==> |FlatChunks(ks)[k].data| < TWO64
    ensures LoadChunks(ChunkFilesOf(ks).0, MetasOf(ks, i)[..n]) == Ok(ks[i].chunks[..n])
    decreases n
  {
    hide FlatChunks, ReadChunk, MetasOf, ChunkFilesOf, Unpacked;
    if n > 0 {
      ChunksLoad(ks, i, n - 1);
      BlockChunk(ks, i, n - 1);
      MetasTimes(ks, i);
      var metas, cs := MetasOf(ks, i), ks[i].chunks;
      assert metas[..n][..n - 1] == metas[..n - 1] && cs[..n] == cs[..n - 1] + [cs[n - 1]];
    }
  }

  lemma SeriesLoads(ks: seq<SeriesInput>, i: nat)
    requires FitsBlock(ks) && i < |ks|
    ensures IndexOf(ks).Ok? && LoadSeries(IndexOf(ks).value, ChunkFilesOf(ks).0, RowsOf(ks)[i].id) == Ok(ks[i])
  {
    hide FitsFormat, ContentOf, IndexOf, SeriesOf, RowsOf, MetasOf, LoadChunks, FlatChunks, ChunkFilesOf;
    BlockSeries(ks, i);
    ChunksLoad(ks, i, |ks[i].chunks|);
    assert MetasOf(ks, i)[..|ks[i].chunks|] == MetasOf(ks, i) && ks[i].chunks[..|ks[i].chunks|] == ks[i].chunks;
  }

  lemma LoadAllSnoc(x: Index, files: seq<seq<byte>>, ids: seq<nat>, id: nat)
    ensures LoadAll(x, files, ids + [id]) == match LoadAll(x, files, ids)
      case Err(e) => Err(e)
      case Ok(ks) => match LoadSeries(x, files, id) case Err(e) => Err(e) case Ok(k) => Ok(ks + [k])
  {
    hide LoadSeries;
    assert (ids + [id])[..|ids|] == ids;
  }

  lemma LabelledStep(ks: seq<SeriesInput>, n: nat)
    requires 0 < n <= |ks|
    ensures LabelledOnly(ks[..n]) == LabelledOnly(ks[..n - 1]) + (if ks[n - 1].labels == [] then [] else [ks[n - 1]])
  {
    assert ks[..n][..n - 1] == ks[..n - 1];
  }

  lemma {:induction false} LoadsUpTo(ks: seq<SeriesInput>, n: nat)
    requires FitsBlock(ks) && n <= |ks|
    ensures IndexOf(ks).Ok?
    ensures LoadAll(IndexOf(ks).value, ChunkFilesOf(ks).0, IdsOf(RowsOf(ks)[..n], Labelled)) == Ok(LabelledOnly(ks[..n]))
    decreases n
  {
    hide FitsBlock, IndexOf, LoadSeries, ChunkFilesOf, SeriesId, SeriesContent, IdsOf, LabelledOnly;
    IndexThere(ks);
    if n == 0 {
      assert RowsOf(ks)[..0] == [] && ks[..0] == [];
      NoIds(Labelled);
      NoneLabelled();
    } else {
      LoadsUpTo(ks, n - 1);
      IdsOfStep(RowsOf(ks), n, Labelled);
      LabelledStep(ks, n);
      var ids := IdsOf(RowsOf(ks)[..n - 1], Labelled);
      if ks[n - 1].labels != [] {
        SeriesLoads(ks, n - 1);
        LoadAllSnoc(IndexOf(ks).value, ChunkFilesOf(ks).0, ids, RowsOf(ks)[n - 1].id);
      } else {
        assert ids + [] == ids && LabelledOnly(ks[..n - 1]) + [] == LabelledOnly(ks[..n - 1]);
      }
    }
  }

  lemma NoneLabelled()
    ensures LabelledOnly([]) == []
  {
  }

  /** What compaction reads from a created block is what the block was created from, without the
      series that have no label: no posting list mentions them. */
  lemma CreatedLoads(ulid: Str, inputs: seq<SeriesInput>)
    requires FitsBlock(Kept(inputs))
    ensures Loaded(CreatedBlock(ulid, inputs)) == Ok(LabelledOnly(Kept(inputs)))
  {
    hide FitsBlock, Kept, ContentOf, ParseIndex, IndexFile, Represents, RowsOf, LoadAll, IdsOf, ChunkFilesOf, MetaFor,
      AllOf, LabelledOnly;
    var ks := Kept(inputs);
    IndexThere(ks);
    AllOfIs(IndexOf(ks).value, RowsOf(ks));
    LoadsUpTo(ks, |ks|);
    assert RowsOf(ks)[..|ks|] == RowsOf(ks) && ks[..|ks|] == ks;
  }

  // ---- Samples through gathering ---------------------------------------------

  lemma {:induction false} GatheredConcat(a: seq<SeriesInput>, b: seq<SeriesInput>, ls: Labels)
    ensures Gathered(a + b, ls) == Gathered(a, ls) + Gathered(b, ls)
    decreases |b|
  {
    if b == [] {
      assert a + b == a;
    } else {
      assert (a + b)[..|a + b| - 1] == a + b[..|b| - 1];
      GatheredConcat(a, b[..|b| - 1], ls);
    }
  }

  lemma {:induction false} SamplesInConcat(a: seq<ChunkInput>, b: seq<ChunkInput>)
    requires Decodable(a) && Decodable(b)
    ensures Decodable(a + b) && SamplesIn(a + b) == SamplesIn(a) + SamplesIn(b)
    decreases |b|
  {
    hide *;
    if b == [] {
      NoMoreSamples(a);
    } else {
      var init, c := b[..|b| - 1], b[|b| - 1];
      DecodableInit(b);
      SamplesInConcat(a, init);
      DecodableSnoc(init, c);
      DecodableSnoc(a + init, c);
      Rejoined(b);
      JoinedAgain(a, init, [c], b);
      JoinedAgain(SamplesIn(a), SamplesIn(init), Timed(DecodeChunk(c.bytes).value), SamplesIn(b));
    }
  }

  lemma NoMoreSamples(a: seq<ChunkInput>)
    requires Decodable(a)
    ensures Decodable(a + []) && Decodable([]) && SamplesIn(a + []) == SamplesIn(a) + SamplesIn([])
  {
    assert a + [] == a;
  }

  lemma DecodableInit(b: seq<ChunkInput>)
    requires b != [] && Decodable(b)
    ensures Decodable(b[..|b| - 1]) && DecodeChunk(b[|b| - 1].bytes).Some?
  {
    hide DecodeChunk;
  }

  lemma SamplesForConcat(a: seq<SeriesInput>, b: seq<SeriesInput>, ls: Labels)
    requires AllDecodable(a) && AllDecodable(b)
    ensures AllDecodable(a + b) && SamplesFor(a + b, ls) == SamplesFor(a, ls) + SamplesFor(b, ls)
  {
    hide DecodeChunk, SamplesIn, Gathered;
    GatheredDecodable(a, ls);
    GatheredDecodable(b, ls);
    GatheredConcat(a, b, ls);
    SamplesInConcat(Gathered(a, ls), Gathered(b, ls));
  }

  // ---- What the output holds -------------------------------------------------

  /** The chunks handed over decode to the samples of the series. */
  lemma {:induction false} InputsDecode(chunks: seq<seq<Sample>>)
    requires Short(chunks)
    ensures Decodable(InputsOf(chunks)) && SamplesIn(InputsOf(chunks)) == Timed(Flatten(chunks))
  {
    hide *;
    if chunks == [] {
      NothingDecodes();
    } else {
      ShortInit(chunks);
      InputsDecode(chunks[..|chunks| - 1]);
      InputsDecodeStep(chunks);
    }
  }

  lemma NothingDecodes()
    ensures Decodable(InputsOf([])) && SamplesIn(InputsOf([])) == Timed(Flatten([]))
  {
  }

  lemma ShortInit(chunks: seq<seq<Sample>>)
    requires chunks != [] && Short(chunks)
    ensures Short(chunks[..|chunks| - 1])
  {
  }

  lemma InputsDecodeStep(chunks: seq<seq<Sample>>)
    requires chunks != [] && Short(chunks) && Short(chunks[..|chunks| - 1])
    requires var init := chunks[..|chunks| - 1];
      Decodable(InputsOf(init)) && SamplesIn(InputsOf(init)) == Timed(Flatten(init))
    ensures Decodable(InputsOf(chunks)) && SamplesIn(InputsOf(chunks)) == Timed(Flatten(chunks))
  {
    hide *;
    var init, ss := chunks[..|chunks| - 1], chunks[|chunks| - 1];
    InputsUnfold(chunks);
    if ss == [] {
      assert Flatten(init) + ss == Flatten(init);
    } else {
      BytesDecode(ss);
      TimedConcat(Flatten(init), ss);
      DecodableSnoc(InputsOf(init), ChunkInput(ss[0].t, ss[|ss| - 1].t, BytesOf(ss)));
    }
  }

  lemma InputsUnfold(chunks: seq<seq<Sample>>)
    requires chunks != [] && Short(chunks) && Short(chunks[..|chunks| - 1])
    ensures |chunks[|chunks| - 1]| <= MAX_SAMPLES
    ensures var init, ss := chunks[..|chunks| - 1], chunks[|chunks| - 1];
      && Flatten(chunks) == Flatten(init) + ss
      && InputsOf(chunks) == if ss == [] then InputsOf(init)
          else InputsOf(init) + [ChunkInput(ss[0].t, ss[|ss| - 1].t, BytesOf(ss))]
  {
    hide BytesOf;
  }

  lemma TimedConcat(a: seq<Sample>, b: seq<Sample>)
    ensures Timed(a + b) == Timed(a) + Timed(b)
  {
  }

  lemma DecodableSnoc(a: seq<ChunkInput>, c: ChunkInput)
    requires Decodable(a) && DecodeChunk(c.bytes).Some?
    ensures Decodable(a + [c]) && SamplesIn(a + [c]) == SamplesIn(a) + Timed(DecodeChunk(c.bytes).value)
  {
    hide DecodeChunk;
    assert (a + [c])[..|a|] == a;
  }

  lemma TimedUntimed(es: seq<TimeValue>)
    ensures Timed(Untimed(es)) == es
  {
  }

  /** The chunks of an output series hold exactly the merged samples. */
  lemma OutputSamples(ks: seq<SeriesInput>, ls: Labels)
    requires AllDecodable(ks)
    ensures Decodable(Output(ks, ls).chunks) && SamplesIn(Output(ks, ls).chunks) == Merged(ks, ls) && Output(ks, ls).labels == ls
  {
    hide InputsOf, Recut, SamplesIn, Merged, Decodable;
    var es := Merged(ks, ls);
    MergedAscending(ks, ls);
    RecutMeaning(ls, es);
    RecutShort(ls, es);
    InputsDecode(Recut(ls, es).chunks);
    TimedUntimed(es);
  }

  /** The labelled, non-empty outputs are what a reader of the compacted block finds. */
  function Found(ks: seq<SeriesInput>, order: seq<Labels>): seq<SeriesInput>
    requires AllDecodable(ks)
  {
    LabelledOnly(Kept(Outputs(ks, order)))
  }

  lemma {:induction false} GatheredKept(ks: seq<SeriesInput>, ls: Labels)
    requires ls != []
    ensures Gathered(LabelledOnly(Kept(ks)), ls) == Gathered(ks, ls)
  {
    if ks != [] {
      var init, k := ks[..|ks| - 1], ks[|ks| - 1];
      GatheredKept(init, ls);
      GatheredConcat(LabelledOnly(Kept(init)), [k], ls);
      assert [k][..0] == [] && Gathered([k], ls) == (if k.labels == ls then k.chunks else []);
      if k.chunks == [] {
        assert Kept(ks) == Kept(init);
      } else {
        assert Kept(ks)[..|Kept(init)|] == Kept(init);
        if k.labels == [] {
          assert LabelledOnly(Kept(ks)) == LabelledOnly(Kept(init));
        }
      }
    }
  }

  /** Gathering from the outputs finds the one output of a label set. */
  lemma {:induction false} GatheredOutputs(ks: seq<SeriesInput>, order: seq<Labels>, ls: Labels)
    requires AllDecodable(ks) && forall i, j :: 0 <= i < j < |order| ==> order[i] != order[j]
    ensures Gathered(Outputs(ks, order), ls) == if ls in order then Output(ks, ls).chunks else []
    decreases |order|
  {
    hide Output;
    if order != [] {
      var init, last := order[..|order| - 1], order[|order| - 1];
      assert Outputs(ks, order)[..|init|] == Outputs(ks, init);
      GatheredOutputs(ks, init, ls);
      OutputLabels(ks, last);
      assert ls in order <==> ls in init || ls == last;
      if ls == last {
        assert ls !in init;
      }
      assert [] + Output(ks, last).chunks == Output(ks, last).chunks;
    }
  }

  lemma OutputLabels(ks: seq<SeriesInput>, ls: Labels)
    requires AllDecodable(ks)
    ensures Output(ks, ls).labels == ls
  {
  }

  lemma {:induction false} NotGathered(ks: seq<SeriesInput>, ls: Labels)
    requires forall i :: 0 <= i < |ks| ==> ks[i].labels != ls
    ensures Gathered(ks, ls) == []
  {
    if ks != [] {
      NotGathered(ks[..|ks| - 1], ls);
    }
  }

  lemma {:induction false} FoundDecodable(ks: seq<SeriesInput>, order: seq<Labels>)
    requires AllDecodable(ks)
    ensures AllDecodable(Outputs(ks, order)) && AllDecodable(Found(ks, order))
  {
    hide Decodable, Output;
    var os := Outputs(ks, order);
    forall n | 0 <= n < |os|
      ensures Decodable(os[n].chunks)
    {
      OutputSamples(ks, order[n]);
    }
    KeptDecodable(os);
    LabelledDecodable(Kept(os));
  }

  lemma {:induction false} KeptDecodable(ks: seq<SeriesInput>)
    requires AllDecodable(ks)
    ensures AllDecodable(Kept(ks))
  {
    hide Decodable;
    if ks != [] {
      KeptDecodable(ks[..|ks| - 1]);
    }
  }

  lemma {:induction false} LabelledDecodable(ks: seq<SeriesInput>)
    requires AllDecodable(ks)
    ensures AllDecodable(LabelledOnly(ks))
  {
    hide Decodable;
    if ks != [] {
      LabelledDecodable(ks[..|ks| - 1]);
    }
  }

  /** Reading the compacted block back gives, under every label set, exactly the merged samples. */
  lemma FoundSamples(ks: seq<SeriesInput>, order: seq<Labels>, ls: Labels)
    requires AllDecodable(ks) && IsOrder(order, ks) && ls != []
    ensures AllDecodable(Found(ks, order)) && SamplesFor(Found(ks, order), ls) == Merged(ks, ls)
  {
    hide Output, Outputs, SamplesIn, Gathered, Merged, LabelledOnly, Kept, Decodable;
    FoundDecodable(ks, order);
    GatheredKept(Outputs(ks, order), ls);
    GatheredOutputs(ks, order, ls);
    if ls in order {
      OutputSamples(ks, ls);
    } else {
      NotGathered(ks, ls);
      NothingMerged(ks, ls);
    }
  }

  lemma NothingMerged(ks: seq<SeriesInput>, ls: Labels)
    requires AllDecodable(ks) && Gathered(ks, ls) == []
    ensures Merged(ks, ls) == [] && SamplesFor(ks, ls) == [] && SamplesIn([]) == []
  {
  }

  /** Compaction meaning: what a reader finds in the compacted block under a label set is strictly
      ascending in time and gives each time that any input had there the value of its last
      occurrence in block, series and chunk order; a label set has samples afterwards exactly when
      it had some before. */
  lemma CompactionMeaning(ulid: Str, bs: seq<Block>, ks: seq<SeriesInput>, order: seq<Labels>, ls: Labels)
    requires LoadedAll(bs) == Ok(ks) && AllDecodable(ks) && IsOrder(order, ks) && ls != []
    requires FitsBlock(Kept(Outputs(ks, order)))
    ensures Loaded(Compacted(ulid, bs, ks, order)) == Ok(Found(ks, order)) && AllDecodable(Found(ks, order))
    ensures var out := SamplesFor(Found(ks, order), ls);
      && Ascending(Earlier, out)
      && LastWins(out) == LastWins(SamplesFor(ks, ls))
      && (out == [] <==> SamplesFor(ks, ls) == [])
  {
    hide Output, Outputs, SamplesFor, Merged, FitsBlock, LoadedAll, AllDecodable, IsOrder, LastWins, Loaded, CreatedBlock,
      SortUnique, MaxLevel, SourcesIn;
    LoadedIgnoresMeta(ulid, bs, ks, order);
    CreatedLoads(ulid, Outputs(ks, order));
    FoundSamples(ks, order, ls);
    MergedAscending(ks, ls);
    SameEmptiness(SamplesFor(Found(ks, order), ls), SamplesFor(ks, ls));
  }

  lemma LoadedIgnoresMeta(ulid: Str, bs: seq<Block>, ks: seq<SeriesInput>, order: seq<Labels>)
    requires AllDecodable(ks)
    ensures Loaded(Compacted(ulid, bs, ks, order)) == Loaded(CreatedBlock(ulid, Outputs(ks, order)))
  {
    hide Outputs, AllDecodable, CreatedBlock, ParseIndex, AllOf, LoadAll, SortUnique, MaxLevel, SourcesIn;
  }

  lemma SameEmptiness(a: seq<TimeValue>, b: seq<TimeValue>)
    requires LastWins(a) == LastWins(b)
    ensures a == [] <==> b == []
  {
    if a != [] {
      KeyPresent(a, 0);
    }
    if b != [] {
      KeyPresent(b, 0);
    }
  }

  // ---- Compacting in stages --------------------------------------------------

  /** Two lists of inputs that mean the same under a label set merge to the same samples. */
  lemma MergedByMeaning(a: seq<SeriesInput>, b: seq<SeriesInput>, ls: Labels)
    requires AllDecodable(a) && AllDecodable(b) && LastWins(SamplesFor(a, ls)) == LastWins(SamplesFor(b, ls))
    ensures Merged(a, ls) == Merged(b, ls)
  {
    hide SamplesFor, Merged, LastWins, AllDecodable;
    EarlierStrictTotal();
    MergedAscending(a, ls);
    MergedAscending(b, ls);
    AscendingUnique(Earlier, Merged(a, ls), Merged(b, ls));
  }

  /** Compaction in stages: compacting some inputs first and the result with others, before or
      behind them, merges every label set to the very samples that compacting all inputs at once
      does. With nothing else, compacting again changes nothing. */
  lemma CompactionStages(x: seq<SeriesInput>, order: seq<Labels>, y: seq<SeriesInput>, ls: Labels)
    requires AllDecodable(x) && AllDecodable(y) && IsOrder(order, x) && ls != []
    ensures AllDecodable(Found(x, order)) && AllDecodable(Found(x, order) + y) && AllDecodable(y + Found(x, order))
    ensures AllDecodable(x + y) && AllDecodable(y + x)
    ensures Merged(Found(x, order) + y, ls) == Merged(x + y, ls)
    ensures Merged(y + Found(x, order), ls) == Merged(y + x, ls)
    ensures Merged(Found(x, order), ls) == Merged(x, ls)
  {
    hide Found, SamplesFor, Merged, LastWins, AllDecodable, IsOrder;
    var c := Found(x, order);
    FoundSamples(x, order, ls);
    MergedAscending(x, ls);
    SamplesForConcat(c, y, ls);
    SamplesForConcat(x, y, ls);
    SamplesForConcat(y, c, ls);
    SamplesForConcat(y, x, ls);
    LastWinsConcat(SamplesFor(c, ls), SamplesFor(y, ls));
    LastWinsConcat(SamplesFor(x, ls), SamplesFor(y, ls));
    LastWinsConcat(SamplesFor(y, ls), SamplesFor(c, ls));
    LastWinsConcat(SamplesFor(y, ls), SamplesFor(x, ls));
    MergedByMeaning(c + y, x + y, ls);
    MergedByMeaning(y + c, y + x, ls);
    MergedByMeaning(c, x, ls);
  }

  lemma LoadedSnoc(bs: seq<Block>, b: Block)
    ensures LoadedAll(bs + [b]) == match LoadedAll(bs)
      case Err(e) => Err(e)
      case Ok(ks) => match Loaded(b) case Err(e) => Err(e) case Ok(more) => Ok(ks + more)
  {
    hide Loaded;
    assert (bs + [b])[..|bs|] == bs;
  }

  lemma JoinedAgain<T>(a: seq<T>, b: seq<T>, c: seq<T>, d: seq<T>)
    requires d == b + c
    ensures a + b + c == a + d
  {
  }

  lemma LoadedNone(a: seq<Block>, x: seq<SeriesInput>, y: seq<SeriesInput>)
    requires LoadedAll(a) == Ok(x) && LoadedAll([]) == Ok(y)
    ensures LoadedAll(a + []) == Ok(x + y)
  {
    assert a + [] == a && x + y == x;
  }

  lemma Rejoined<T>(s: seq<T>)
    requires s != []
    ensures s == s[..|s| - 1] + [s[|s| - 1]]
  {
  }

  lemma LoadedTwoStep(a: seq<Block>, init: seq<Block>, b: Block, x: seq<SeriesInput>, y: seq<SeriesInput>)
    requires LoadedAll(a + init) == Ok(x + y) && Loaded(b).Ok?
    ensures LoadedAll(a + (init + [b])) == Ok(x + (y + Loaded(b).value))
  {
    hide *;
    LoadedSnoc(a + init, b);
    JoinedAgain(a, init, [b], init + [b]);
    JoinedAgain(x, y, Loaded(b).value, y + Loaded(b).value);
  }

  lemma {:induction false} LoadedTwo(a: seq<Block>, b: seq<Block>, x: seq<SeriesInput>, y: seq<SeriesInput>)
    requires LoadedAll(a) == Ok(x) && LoadedAll(b) == Ok(y)
    ensures LoadedAll(a + b) == Ok(x + y)
    decreases |b|
  {
    hide *;
    if b == [] {
      LoadedNone(a, x, y);
    } else {
      Rejoined(b);
      LoadedSnoc(b[..|b| - 1], b[|b| - 1]);
      LoadedTwo(a, b[..|b| - 1], x, LoadedAll(b[..|b| - 1]).value);
      LoadedTwoStep(a, b[..|b| - 1], b[|b| - 1], x, LoadedAll(b[..|b| - 1]).value);
    }
  }

  lemma LoadedOne(b: Block)
    ensures LoadedAll([b]) == Loaded(b)
  {
    hide Loaded;
    assert [b][..0] == [] && LoadedAll([]) == Ok([]);
    if Loaded(b).Ok? {
      assert [] + Loaded(b).value == Loaded(b).value;
    }
  }

  /** In stages the blocks hand over what `CompactionStages` speaks of. */
  lemma BlocksInStages(ulid: Str, bs: seq<Block>, x: seq<SeriesInput>, order: seq<Labels>, more: seq<Block>, y: seq<SeriesInput>)
    requires LoadedAll(bs) == Ok(x) && LoadedAll(more) == Ok(y) && AllDecodable(x)
    requires FitsBlock(Kept(Outputs(x, order)))
    ensures var c := Compacted(ulid, bs, x, order);
      && LoadedAll([c] + more) == Ok(Found(x, order) + y) && LoadedAll(bs + more) == Ok(x + y)
      && LoadedAll(more + [c]) == Ok(y + Found(x, order)) && LoadedAll(more + bs) == Ok(y + x)
  {
    hide FitsBlock, LoadedAll, AllDecodable, Loaded, CreatedBlock, Outputs, Compacted, Kept, LabelledOnly;
    var c := Compacted(ulid, bs, x, order);
    LoadedIgnoresMeta(ulid, bs, x, order);
    CreatedLoads(ulid, Outputs(x, order));
    LoadedOne(c);
    LoadedTwo([c], more, Found(x, order), y);
    LoadedTwo(bs, more, x, y);
    LoadedTwo(more, [c], y, Found(x, order));
    LoadedTwo(more, bs, y, x);
  }

  /** What a head hands over can be decoded: its samples, series by series. */
  lemma {:induction false} HeadDecodable(live: seq<Series>)
    requires HeadBlocks.AllSound(live)
    ensures AllDecodable(FromHead(live))
  {
    hide WellFormedSeries, InputsOf, Decodable;
    if live != [] {
      HeadDecodable(live[..|live| - 1]);
      HeadBlocks.SoundChunks(live[|live| - 1]);
      InputsDecode(live[|live| - 1].chunks);
    }
  }

  lemma {:induction false} SourcesConcat(a: seq<Block>, b: seq<Block>)
    ensures SourcesIn(a + b) == SourcesIn(a) + SourcesIn(b)
    decreases |b|
  {
    if b == [] {
      assert a + b == a;
    } else {
      assert (a + b)[..|a + b| - 1] == a + b[..|b| - 1];
      SourcesConcat(a, b[..|b| - 1]);
    }
  }

  lemma {:induction false} LevelConcat(a: seq<Block>, b: seq<Block>)
    ensures MaxLevel(a + b) == if MaxLevel(a) > MaxLevel(b) then MaxLevel(a) else MaxLevel(b)
    decreases |b|
  {
    if b == [] {
      assert a + b == a;
    } else {
      assert (a + b)[..|a + b| - 1] == a + b[..|b| - 1];
      LevelConcat(a, b[..|b| - 1]);
    }
  }

  /** Sources are the same in stages; only the level tells how often a block was compacted. */
  lemma SourcesInStages(c: Block, x: seq<Block>, y: seq<Block>)
    requires c.meta.sources == SortUnique(Less, SourcesIn(x)) && c.meta.level == MaxLevel(x) + 1
    ensures SortUnique(Less, SourcesIn([c] + y)) == SortUnique(Less, SourcesIn(x + y))
    ensures SortUnique(Less, SourcesIn(y + [c])) == SortUnique(Less, SourcesIn(y + x))
    ensures MaxLevel([c] + y) == if MaxLevel(x) + 1 > MaxLevel(y) then MaxLevel(x) + 1 else MaxLevel(y)
  {
    hide SortUnique;
    LessStrictTotal();
    assert [c][..0] == [] && SourcesIn([c]) == [] + c.meta.sources == c.meta.sources;
    assert MaxLevel([c]) == MaxLevel(x) + 1;
    SourcesConcat([c], y);
    SourcesConcat(x, y);
    SourcesConcat(y, [c]);
    SourcesConcat(y, x);
    LevelConcat([c], y);
    SortUniqueMeaning(Less, SourcesIn(x));
    SameSorted(SourcesIn([c] + y), SourcesIn(x + y));
    SameSorted(SourcesIn(y + [c]), SourcesIn(y + x));
  }

  lemma SameSorted(a: seq<Str>, b: seq<Str>)
    requires forall s :: s in a <==> s in b
    ensures SortUnique(Less, a) == SortUnique(Less, b)
  {
    hide SortUnique;
    LessStrictTotal();
    SortUniqueMeaning(Less, a);
    SortUniqueMeaning(Less, b);
    AscendsUnique(Less, SortUnique(Less, a), SortUnique(Less, b));
  }

  // ---- Stages, end to end ----------------------------------------------------

  /** The block is what compaction writes for some inputs, under some name and in some order. */
  ghost predicate IsCompaction(c: Block, bs: seq<Block>) {
    exists ulid, ks, order :: CompactedAs(c, bs, ulid, ks, order)
  }

  ghost predicate CompactedAs(c: Block, bs: seq<Block>, ulid: Str, ks: seq<SeriesInput>, order: seq<Labels>) {
    && LoadedAll(bs) == Ok(ks) && AllDecodable(ks) && IsOrder(order, ks)
    && FitsBlock(Kept(Outputs(ks, order)))
    && c == Compacted(ulid, bs, ks, order)
  }

  /** Loading the block gives these samples under a label set. */
  ghost predicate Gives(b: Block, ls: Labels, es: seq<TimeValue>) {
    Loaded(b).Ok? && AllDecodable(Loaded(b).value) && SamplesFor(Loaded(b).value, ls) == es
  }

  lemma CompactionGives(c: Block, bs: seq<Block>, ks: seq<SeriesInput>, ls: Labels)
    requires IsCompaction(c, bs) && LoadedAll(bs) == Ok(ks) && ls != []
    ensures AllDecodable(ks) && Gives(c, ls, Merged(ks, ls)) && c.meta.sources == SortUnique(Less, SourcesIn(bs))
  {
    hide Outputs, SamplesFor, Merged, FitsBlock, LoadedAll, AllDecodable, IsOrder, Loaded, CreatedBlock, Kept, Found,
      SortUnique, LastWins;
    var ulid, same, order :| CompactedAs(c, bs, ulid, same, order);
    CompactionMeaning(ulid, bs, ks, order, ls);
    FoundSamples(ks, order, ls);
  }

  lemma CompactionLoads(c: Block, bs: seq<Block>, x: seq<SeriesInput>, more: seq<Block>, y: seq<SeriesInput>) returns (order: seq<Labels>)
    requires IsCompaction(c, bs) && LoadedAll(bs) == Ok(x) && LoadedAll(more) == Ok(y)
    ensures AllDecodable(x) && IsOrder(order, x)
    ensures LoadedAll([c] + more) == Ok(Found(x, order) + y) && LoadedAll(more + [c]) == Ok(y + Found(x, order))
    ensures LoadedAll(bs + more) == Ok(x + y) && LoadedAll(more + bs) == Ok(y + x)
  {
    hide Outputs, FitsBlock, LoadedAll, AllDecodable, IsOrder, Compacted, Kept, Found;
    var ulid, same, o :| CompactedAs(c, bs, ulid, same, o);
    order := o;
    BlocksInStages(ulid, bs, x, order, more, y);
  }

  /** Compaction in stages, end to end: a block compacted from `[compact(xs)]` and other blocks, on
      either side, gives under every label set the very samples of the block compacted from all of
      them at once, and has the same sources. */
  lemma StagedIsDirect(c: Block, xs: seq<Block>, x: seq<SeriesInput>, ys: seq<Block>, y: seq<SeriesInput>, staged: Block, direct: Block, ls: Labels)
    requires IsCompaction(c, xs) && LoadedAll(xs) == Ok(x) && LoadedAll(ys) == Ok(y) && AllDecodable(y) && ls != []
    requires (IsCompaction(staged, [c] + ys) && IsCompaction(direct, xs + ys)) || (IsCompaction(staged, ys + [c]) && IsCompaction(direct, ys + xs))
    ensures exists es :: Gives(staged, ls, es) && Gives(direct, ls, es)
    ensures staged.meta.sources == direct.meta.sources
  {
    hide Merged, LoadedAll, AllDecodable, IsOrder, Found, IsCompaction, Gives, SortUnique, SourcesIn, MaxLevel;
    var order := CompactionLoads(c, xs, x, ys, y);
    CompactionStages(x, order, y, ls);
    CompactionSources(c, xs);
    SourcesInStages(c, xs, ys);
    var f := Found(x, order);
    if IsCompaction(staged, [c] + ys) && IsCompaction(direct, xs + ys) {
      CompactionGives(staged, [c] + ys, f + y, ls);
      CompactionGives(direct, xs + ys, x + y, ls);
    } else {
      CompactionGives(staged, ys + [c], y + f, ls);
      CompactionGives(direct, ys + xs, y + x, ls);
    }
  }

  lemma CompactionSources(c: Block, bs: seq<Block>)
    requires IsCompaction(c, bs)
    ensures c.meta.sources == SortUnique(Less, SourcesIn(bs)) && c.meta.level == MaxLevel(bs) + 1
  {
    hide Outputs, FitsBlock, LoadedAll, AllDecodable, IsOrder, CreatedBlock, Kept, SortUnique, SourcesIn, MaxLevel;
    var ulid, ks, order :| CompactedAs(c, bs, ulid, ks, order);
  }
}
