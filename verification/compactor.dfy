/** Flushing a head and compacting blocks, step by step. */
module Compactors {
  import opened Words
  import opened Wrappers
  import opened Sorting
  import opened SortedSets
  import opened XorCode
  import opened XorChunks
  import opened LabelSets
  import opened MemSeriesModel
  import opened SeriesStores
  import opened HeadBlocks
  import opened Queries
  import opened IndexFormat
  import opened IndexFiles
  import opened IndexReaders
  import opened BlockModel
  import opened BlockReaders
  import opened BlockWriters
  import opened HeadToBlock
  import opened Compaction
  import A = PostingAlgebra
  import Varint

  // ---- From memory -----------------------------------------------------------

  lemma InputsStep(css: seq<seq<Sample>>, i: nat)
    requires i < |css| && Short(css)
    ensures Short(css[..i]) && Short(css[..i + 1])
    ensures InputsOf(css[..i + 1]) == InputsOf(css[..i]) +
      (if css[i] == [] then [] else [ChunkInput(css[i][0].t, css[i][|css[i]| - 1].t, BytesOf(css[i]))])
  {
    hide BytesOf;
    assert css[..i + 1][..i] == css[..i];
  }

  lemma NoInputs(css: seq<seq<Sample>>)
    ensures InputsOf(css[..0]) == []
  {
  }

  /** The chunks of a live series with their first and last times. */
  method ChunkInputs(chunks: seq<XORChunk>, ghost css: seq<seq<Sample>>) returns (out: seq<ChunkInput>)
    requires |css| == |chunks| && Short(css)
    requires forall i :: 0 <= i < |chunks| ==> XorChunks.Holds(chunks[i].writer, History(css[i]))
    ensures out == InputsOf(css)
  {
    hide InputsOf, BytesOf, XorChunks.Holds, DecodeChunk, History, Encode;
    out := [];
    NoInputs(css);
    for i := 0 to |chunks|
      invariant out == InputsOf(css[..i])
    {
      var xc := chunks[i];
      InputsStep(css, i);
      ChunkContents(xc.writer, css[i]);
      var n := xc.NumSamples(History(css[i]));
      if n == 0 {
        assert InputsOf(css[..i]) + [] == InputsOf(css[..i]);
        continue;
      }
      var first, minTime, maxTime, failed := ChunkRange(xc.Bytes());
      out := out + [ChunkInput(minTime, maxTime, xc.Bytes())];
    }
    assert css[..|css|] == css;
  }

  lemma SeriesParts(s: MemSeries)
    requires s.Valid()
    ensures Short(s.content.chunks) && |s.chunks| == |s.content.chunks| && s.content.labels == s.labels
    ensures forall i :: 0 <= i < |s.chunks| ==> XorChunks.Holds(s.chunks[i].writer, History(s.content.chunks[i]))
    ensures s.numSamples == |Samples(s.content)|
  {
    hide XorChunks.Holds, History, Samples;
    SoundChunks(s.content);
  }

  lemma {:induction false} NoSamplesNoInputs(css: seq<seq<Sample>>)
    requires Short(css) && Flatten(css) == []
    ensures InputsOf(css) == []
  {
    if css != [] {
      NoSamplesNoInputs(css[..|css| - 1]);
    }
  }

  /** Every live series that has a chunk, by ascending reference. */
  method InputsFromHead(h: HeadBlock) returns (inputs: seq<SeriesInput>)
    requires h.Valid()
    ensures HeadBlocks.AllSound(Live(h.series.Content().byRef))
    ensures inputs == FromHead(Live(h.series.Content().byRef))
  {
    hide Consistent, SeriesStore.Content, MemSeries.Valid, WellFormedSeries, Live, InputsOf, FromHead;
    LiveSound(h.series.Content());
    var all := h.series.AllSeries();
    ghost var live := Live(h.series.Content().byRef);
    inputs := [];
    NoneFromHead(live);
    for i := 0 to |all|
      invariant HeadBlocks.AllSound(live[..i]) && inputs == FromHead(live[..i])
    {
      var s := all[i];
      FromHeadStep(live, i);
      SeriesParts(s);
      assert inputs + [] == inputs;
      if s.numSamples == 0 {
        NoSamplesNoInputs(s.content.chunks);
        continue;
      }
      var chunks := ChunkInputs(s.chunks, s.content.chunks);
      if chunks == [] {
        continue;
      }
      inputs := inputs + [SeriesInput(s.labels, chunks)];
    }
    assert live[..|live|] == live;
  }

  lemma NoneFromHead(live: seq<Series>)
    ensures HeadBlocks.AllSound(live[..0]) && FromHead(live[..0]) == []
  {
  }

  /** Flushes a head to a block; the head is only read. */
  method CreateFromHead(ulid: Str, h: HeadBlock) returns (b: Block)
    requires h.Valid() && HeadBlocks.AllSound(Live(h.series.Content().byRef))
    requires Creatable(FromHead(Live(h.series.Content().byRef)))
    ensures b == CreatedBlock(ulid, FromHead(Live(h.series.Content().byRef)))
  {
    hide Creatable, CreatedBlock, FromHead, Live, HeadBlock.Valid;
    var inputs := InputsFromHead(h);
    b := CreateFromSeries(ulid, inputs);
  }

  // ---- One merged series -----------------------------------------------------

  lemma SamplesStep(cs: seq<ChunkInput>, i: nat)
    requires i < |cs| && Decodable(cs[..i]) && DecodeChunk(cs[i].bytes).Some?
    ensures Decodable(cs[..i]) && Decodable(cs[..i + 1])
    ensures SamplesIn(cs[..i + 1]) == SamplesIn(cs[..i]) + Timed(DecodeChunk(cs[i].bytes).value)
  {
    hide DecodeChunk;
    assert cs[..i + 1][..i] == cs[..i];
  }

  lemma NoSamplesIn(cs: seq<ChunkInput>)
    ensures SamplesIn(cs[..0]) == []
  {
  }

  /** Decodes the collected chunks, one sample after the other; an error in any of them ends it. */
  method DecodeAll(cs: seq<ChunkInput>) returns (r: Result<seq<TimeValue>, BlockError>)
    ensures if Decodable(cs) then r == Ok(SamplesIn(cs)) else r.Err? && r.error in {BlockError.IoError, BlockError.Unspecified}
  {
    hide SamplesIn, DecodeChunk, WellFormed;
    var samples: seq<TimeValue> := [];
    NoSamplesIn(cs);
    for i := 0 to |cs|
      invariant Decodable(cs[..i]) && samples == SamplesIn(cs[..i])
    {
      var ss := XorChunks.ReadAll(cs[i].bytes);
      if ss.Err? {
        return Err(if ss.error == Varint.Unspecified then BlockError.Unspecified else BlockError.IoError);
      }
      SamplesStep(cs, i);
      samples := samples + Timed(ss.value);
    }
    assert cs[..|cs|] == cs;
    return Ok(samples);
  }

  /** Appends merged samples to a throwaway in-memory series, which cuts the new chunks. */
  method RecutSamples(ls: Labels, es: seq<TimeValue>) returns (s: MemSeries)
    requires Ascending(Earlier, es)
    ensures s.Valid() && fresh(s) && s.content == Recut(ls, es)
  {
    hide MemSeries.Valid, Recut, Refuses, WellFormedSeries, Ascending, Samples;
    RecutMeaning(ls, es);
    s := new MemSeries(0, ls);
    NothingCut(ls, es);
    for n := 0 to |es|
      invariant s.Valid() && fresh(s) && fresh(s.Repr) && s.content == Recut(ls, es[..n])
    {
      RecutStep(ls, es, n);
      var ok := s.Append(es[n].key, es[n].val);
    }
    assert es[..|es|] == es;
  }

  lemma NothingCut(ls: Labels, es: seq<TimeValue>)
    ensures Recut(ls, es[..0]) == Series(0, ls, [])
  {
  }

  lemma RecutStep(ls: Labels, es: seq<TimeValue>, n: nat)
    requires n < |es|
    ensures Recut(ls, es[..n + 1]) == Appended(Recut(ls, es[..n]), Sample(es[n].key, es[n].val))
  {
    hide Appended;
    assert es[..n + 1][..n] == es[..n];
  }

  /** Sorts stably by time, keeps the last sample of each time and cuts new chunks. */
  method MergeSeries(ls: Labels, cs: seq<ChunkInput>) returns (r: Result<SeriesInput, BlockError>)
    ensures if Decodable(cs) then r == Ok(OutputOf(ls, cs)) else r.Err? && r.error in {BlockError.IoError, BlockError.Unspecified}
  {
    hide Decodable, SamplesIn, InputsOf, Recut, MemSeries.Valid, KeepLast, StableSort, Ascending;
    var decoded := DecodeAll(cs);
    if decoded.Err? {
      return Err(decoded.error);
    }
    var samples := StableSort(Earlier, decoded.value);
    var merged := KeepRunEnds(samples);
    EarlierStrictTotal();
    CollapseMeaning(Earlier, SamplesIn(cs));
    RecutShort(ls, merged);
    var chunks: seq<ChunkInput> := [];
    if merged != [] {
      var s := RecutSamples(ls, merged);
      SeriesParts(s);
      chunks := ChunkInputs(s.chunks, s.content.chunks);
    } else {
      NothingToCut(ls);
    }
    return Ok(SeriesInput(ls, chunks));
  }

  lemma NothingToCut(ls: Labels)
    ensures InputsOf(Recut(ls, []).chunks) == []
  {
  }

  // ---- Collecting from the blocks --------------------------------------------

  /** What was collected so far, by label set. */
  ghost predicate SoFar(merged: map<Labels, seq<ChunkInput>>, ks: seq<SeriesInput>) {
    && (forall ls: Labels :: ls in merged <==> Occurs(ks, ls))
    && forall ls: Labels :: ls in merged ==> merged[ls] == Gathered(ks, ls)
  }

  lemma SoFarStart()
    ensures SoFar(map[], [])
  {
  }

  lemma SoFarSnoc(merged: map<Labels, seq<ChunkInput>>, ks: seq<SeriesInput>, k: SeriesInput)
    requires SoFar(merged, ks)
    ensures SoFar(merged[k.labels := (if k.labels in merged then merged[k.labels] else []) + k.chunks], ks + [k])
  {
    hide Gathered;
    var next := ks + [k];
    forall ls: Labels
      ensures Occurs(next, ls) <==> ls == k.labels || Occurs(ks, ls)
      ensures Gathered(next, ls) == Gathered(ks, ls) + (if k.labels == ls then k.chunks else [])
    {
      GatheredSnoc(ks, k, ls);
      assert next[|ks|] == k;
      if i :| 0 <= i < |ks| && ks[i].labels == ls {
        assert next[i] == ks[i];
      }
    }
    if k.labels !in merged {
      NotGathered(ks, k.labels);
    }
    forall ls: Labels | ls in merged && ls != k.labels
      ensures Gathered(next, ls) == merged[ls]
    {
      assert Gathered(ks, ls) + [] == Gathered(ks, ls);
    }
  }

  lemma GatheredSnoc(ks: seq<SeriesInput>, k: SeriesInput, ls: Labels)
    ensures Gathered(ks + [k], ls) == Gathered(ks, ls) + (if k.labels == ls then k.chunks else [])
  {
    assert (ks + [k])[..|ks|] == ks;
  }

  lemma LoadAllStep(x: Index, files: seq<seq<byte>>, ids: seq<nat>, i: nat)
    requires i < |ids|
    ensures LoadAll(x, files, ids[..i + 1]) == match LoadAll(x, files, ids[..i])
      case Err(e) => Err(e)
      case Ok(ks) => match LoadSeries(x, files, ids[i]) case Err(e) => Err(e) case Ok(k) => Ok(ks + [k])
  {
    hide LoadSeries;
    assert ids[..i + 1][..i] == ids[..i];
  }

  lemma {:induction false} LoadAllStops(x: Index, files: seq<seq<byte>>, ids: seq<nat>, i: nat)
    requires i <= |ids| && LoadAll(x, files, ids[..i]).Err?
    ensures LoadAll(x, files, ids) == LoadAll(x, files, ids[..i])
    decreases |ids|
  {
    hide LoadSeries;
    if i < |ids| {
      assert ids[..|ids| - 1][..i] == ids[..i];
      LoadAllStops(x, files, ids[..|ids| - 1], i);
    } else {
      assert ids[..i] == ids;
    }
  }

  lemma StartLoadAll(x: Index, files: seq<seq<byte>>, ids: seq<nat>)
    ensures LoadAll(x, files, ids[..0]) == Ok([])
  {
  }

  /** Adds every series of a block to what was collected. */
  method CollectBlock(o: OpenBlock, merged: map<Labels, seq<ChunkInput>>, ghost ks: seq<SeriesInput>)
    returns (r: Result<map<Labels, seq<ChunkInput>>, BlockError>)
    requires o.Checked() && SoFar(merged, ks)
    modifies o.chunks
    ensures match A.AllOf(o.index.index)
      case Err(_) => r == Err(BadIndex)
      case Ok(ids) =>
        match LoadAll(o.index.index, o.chunks.segments, ids)
        case Err(e) => r == Err(e)
        case Ok(more) => r.Ok? && SoFar(r.value, ks + more)
  {
    hide SortUnique, IndexReaders.Collected, LoadAll, SeriesOf, LoadChunks, SoFar, OpenBlock.Checked;
    var all := AllIdsOf(o);
    if all.Err? {
      return Err(BadIndex);
    }
    var ids := all.value;
    var m := merged;
    ghost var more: seq<SeriesInput> := [];
    StartLoadAll(o.index.index, o.chunks.segments, ids);
    assert ks + more == ks;
    for i := 0 to |ids|
      invariant o.Checked() && LoadAll(o.index.index, o.chunks.segments, ids[..i]) == Ok(more)
      invariant SoFar(m, ks + more)
    {
      LoadAllStep(o.index.index, o.chunks.segments, ids, i);
      var entry := o.index.Series(ids[i]);
      if entry.Err? {
        LoadAllStops(o.index.index, o.chunks.segments, ids, i + 1);
        return Err(BadIndex);
      }
      var loaded := ReadEveryOf(o, entry.value.chunks);
      if loaded.Err? {
        LoadAllStops(o.index.index, o.chunks.segments, ids, i + 1);
        return Err(loaded.error);
      }
      var ls := entry.value.labels;
      ghost var k := SeriesInput(ls, loaded.value);
      SoFarSnoc(m, ks + more, k);
      assert ks + more + [k] == ks + (more + [k]);
      m := m[ls := (if ls in m then m[ls] else []) + loaded.value];
      more := more + [k];
    }
    assert ids[..|ids|] == ids;
    return Ok(m);
  }

  method AllIdsOf(o: OpenBlock) returns (r: Result<seq<nat>, IndexError>)
    ensures r == A.AllOf(o.index.index)
  {
    hide SortUnique, IndexReaders.Collected;
    r := o.index.AllPostings();
  }

  method ReadEveryOf(o: OpenBlock, metas: seq<ChunkMeta>) returns (r: Result<seq<ChunkInput>, BlockError>)
    requires o.Checked()
    modifies o.chunks
    ensures r == LoadChunks(o.chunks.segments, metas) && (r.Ok? ==> o.Checked())
  {
    r := o.ReadEvery(metas);
  }

  lemma LoadedStep(bs: seq<Block>, i: nat)
    requires i < |bs|
    ensures LoadedAll(bs[..i + 1]) == match LoadedAll(bs[..i])
      case Err(e) => Err(e)
      case Ok(ks) => match Loaded(bs[i]) case Err(e) => Err(e) case Ok(more) => Ok(ks + more)
    ensures MaxLevel(bs[..i + 1]) == if bs[i].meta.level > MaxLevel(bs[..i]) then bs[i].meta.level else MaxLevel(bs[..i])
    ensures SourcesIn(bs[..i + 1]) == SourcesIn(bs[..i]) + bs[i].meta.sources
  {
    hide Loaded;
    assert bs[..i + 1][..i] == bs[..i];
  }

  lemma {:induction false} LoadedStops(bs: seq<Block>, i: nat)
    requires i <= |bs| && LoadedAll(bs[..i]).Err?
    ensures LoadedAll(bs) == LoadedAll(bs[..i])
    decreases |bs|
  {
    hide Loaded;
    if i < |bs| {
      assert bs[..|bs| - 1][..i] == bs[..i];
      LoadedStops(bs[..|bs| - 1], i);
    } else {
      assert bs[..i] == bs;
    }
  }

  lemma NothingLoaded(bs: seq<Block>)
    ensures LoadedAll(bs[..0]) == Ok([]) && MaxLevel(bs[..0]) == 0 && SourcesIn(bs[..0]) == []
  {
  }

  /** Every index parses. */
  predicate AllOpen(bs: seq<Block>) {
    forall i :: 0 <= i < |bs| ==> ParseIndex(bs[i].index).Ok?
  }

  /** What compaction reads: an input that does not open is found before any series is read. */
  function CollectedAll(bs: seq<Block>): Result<seq<SeriesInput>, BlockError> {
    if AllOpen(bs) then LoadedAll(bs) else Err(BadIndex)
  }

  /** The order of opening and reading only matters for which error is met first. */
  lemma {:induction false} CollectedIsLoaded(bs: seq<Block>)
    ensures CollectedAll(bs).Ok? <==> LoadedAll(bs).Ok?
    ensures CollectedAll(bs).Ok? ==> CollectedAll(bs) == LoadedAll(bs)
  {
    hide ParseIndex, LoadAll, A.AllOf;
    if bs != [] {
      CollectedIsLoaded(bs[..|bs| - 1]);
    }
  }

  /** The opened blocks from some point on, each with its own chunk reader. */
  ghost predicate AreOpen(handles: seq<OpenBlock>, bs: seq<Block>, from: nat)
    reads set o | o in handles :: o.chunks
  {
    && |handles| <= |bs|
    && (forall i :: from <= i < |handles| ==>
          handles[i].Checked() && ParseIndex(bs[i].index) == Ok(handles[i].index.index) && handles[i].chunks.segments == bs[i].chunks)
    && forall i, j :: 0 <= i < j < |handles| ==> handles[i].chunks != handles[j].chunks
  }

  /** Opens every input, noting levels and sources. */
  method OpenAll(bs: seq<Block>) returns (handles: seq<OpenBlock>, ok: bool, level: nat, sources: seq<Str>)
    ensures ok <==> AllOpen(bs)
    ensures ok ==> |handles| == |bs| && AreOpen(handles, bs, 0) && level == MaxLevel(bs) && sources == SourcesIn(bs)
    ensures forall o :: o in handles ==> fresh(o) && fresh(o.chunks)
  {
    hide MaxLevel, SourcesIn, ParseIndex, OpenBlock.Checked;
    handles, level, sources := [], 0, [];
    NothingLoaded(bs);
    for i := 0 to |bs|
      invariant |handles| == i && AreOpen(handles, bs, 0) && level == MaxLevel(bs[..i]) && sources == SourcesIn(bs[..i])
      invariant forall o :: o in handles ==> fresh(o) && fresh(o.chunks)
      invariant forall k :: 0 <= k < i ==> ParseIndex(bs[k].index).Ok?
    {
      LoadedStep(bs, i);
      var o := OpenBlock.Open(bs[i]);
      if o.Err? {
        return handles, false, level, sources;
      }
      level := if bs[i].meta.level > level then bs[i].meta.level else level;
      sources := sources + bs[i].meta.sources;
      handles := handles + [o.value];
    }
    assert bs[..|bs|] == bs;
    return handles, true, level, sources;
  }

  /** Opens every input, then collects chunks by label set. */
  method CollectBlocks(bs: seq<Block>)
    returns (r: Result<map<Labels, seq<ChunkInput>>, BlockError>, level: nat, sources: seq<Str>)
    ensures match CollectedAll(bs)
      case Err(e) => r == Err(e)
      case Ok(ks) => r.Ok? && SoFar(r.value, ks) && level == MaxLevel(bs) && sources == SourcesIn(bs)
  {
    hide Loaded, LoadedAll, MaxLevel, SourcesIn, SoFar, ParseIndex, LoadAll, A.AllOf, OpenBlock.Checked;
    var handles, ok;
    handles, ok, level, sources := OpenAll(bs);
    if !ok {
      return Err(BadIndex), level, sources;
    }
    var merged: map<Labels, seq<ChunkInput>> := map[];
    ghost var ks: seq<SeriesInput> := [];
    NothingLoaded(bs);
    SoFarStart();
    for i := 0 to |bs|
      invariant LoadedAll(bs[..i]) == Ok(ks) && SoFar(merged, ks)
      invariant forall o :: o in handles ==> fresh(o) && fresh(o.chunks)
      invariant AreOpen(handles, bs, i)
    {
      LoadedStep(bs, i);
      LoadedIs(bs[i]);
      var next := CollectBlock(handles[i], merged, ks);
      if next.Err? {
        LoadedStops(bs, i + 1);
        return Err(next.error), level, sources;
      }
      ks := ks + Loaded(bs[i]).value;
      merged := next.value;
    }
    assert bs[..|bs|] == bs;
    return Ok(merged), level, sources;
  }

  lemma LoadedIs(b: Block)
    ensures Loaded(b) == match ParseIndex(b.index)
      case Err(_) => Err(BadIndex)
      case Ok(x) => match A.AllOf(x) case Err(_) => Err(BadIndex) case Ok(ids) => LoadAll(x, b.chunks, ids)
  {
    hide ParseIndex, A.AllOf, LoadAll;
  }

  // ---- Compaction ------------------------------------------------------------

  lemma OutputsSnoc(ks: seq<SeriesInput>, order: seq<Labels>, ls: Labels)
    requires AllDecodable(ks)
    ensures Outputs(ks, order + [ls]) == Outputs(ks, order) + [Output(ks, ls)]
  {
    hide AllDecodable, Output;
  }

  /** Merges every collected series, in whatever order the map gives them; one that does not decode
      ends it. */
  method MergeAll(merged: map<Labels, seq<ChunkInput>>, ghost ks: seq<SeriesInput>)
    returns (r: Result<seq<SeriesInput>, BlockError>, ghost order: seq<Labels>)
    requires SoFar(merged, ks)
    ensures if AllDecodable(ks) then IsOrder(order, ks) && r == Ok(Outputs(ks, order))
      else r.Err? && r.error in {BlockError.IoError, BlockError.Unspecified}
  {
    hide Gathered, Output, OutputOf, Outputs, AllDecodable, Decodable, SoFar;
    var outputs: seq<SeriesInput> := [];
    order := [];
    if AllDecodable(ks) {
      NoOutputs(ks);
    }
    var remaining := merged.Keys;
    while remaining != {}
      invariant remaining <= merged.Keys && (AllDecodable(ks) ==> outputs == Outputs(ks, order))
      invariant forall i, j :: 0 <= i < j < |order| ==> order[i] != order[j]
      invariant forall ls: Labels :: ls in merged.Keys <==> ls in order || ls in remaining
      invariant forall ls: Labels :: ls in order ==> ls !in remaining && Decodable(merged[ls])
      decreases |remaining|
    {
      var ls :| ls in remaining;
      CollectedFor(merged, ks, ls);
      var out := MergeSeries(ls, merged[ls]);
      if out.Err? {
        if AllDecodable(ks) {
          GatheredDecodable(ks, ls);
        }
        return Err(out.error), order;
      }
      if AllDecodable(ks) {
        OutputIs(ks, ls);
        OutputsSnoc(ks, order, ls);
      }
      outputs := outputs + [out.value];
      order := order + [ls];
      remaining := remaining - {ls};
    }
    OrderFound(merged, ks, order);
    AllMerged(merged, ks);
    return Ok(outputs), order;
  }

  lemma CollectedFor(merged: map<Labels, seq<ChunkInput>>, ks: seq<SeriesInput>, ls: Labels)
    requires SoFar(merged, ks) && ls in merged
    ensures merged[ls] == Gathered(ks, ls)
  {
    hide Gathered;
  }

  lemma AllMerged(merged: map<Labels, seq<ChunkInput>>, ks: seq<SeriesInput>)
    requires SoFar(merged, ks) && forall ls: Labels :: ls in merged ==> Decodable(merged[ls])
    ensures AllDecodable(ks)
  {
    hide Gathered, Decodable, AllDecodable;
    forall i | 0 <= i < |ks|
      ensures Decodable(Gathered(ks, ks[i].labels))
    {
      assert Occurs(ks, ks[i].labels);
      assert ks[i].labels in merged;
    }
    DecodableByLabels(ks);
  }

  lemma NoOutputs(ks: seq<SeriesInput>)
    requires AllDecodable(ks)
    ensures Outputs(ks, []) == []
  {
  }

  lemma OrderFound(merged: map<Labels, seq<ChunkInput>>, ks: seq<SeriesInput>, order: seq<Labels>)
    requires SoFar(merged, ks)
    requires forall i, j :: 0 <= i < j < |order| ==> order[i] != order[j]
    requires forall ls: Labels :: ls in merged <==> ls in order
    ensures IsOrder(order, ks)
  {
    hide Gathered;
    forall n | 0 <= n < |order|
      ensures Occurs(ks, order[n])
    {
      assert order[n] in merged;
    }
    forall i | 0 <= i < |ks|
      ensures ks[i].labels in order
    {
      assert Occurs(ks, ks[i].labels);
      assert ks[i].labels in merged;
    }
  }

  /** Compacts blocks into one. */
  method Compact(ulid: Str, bs: seq<Block>) returns (r: Result<Block, BlockError>, ghost order: seq<Labels>)
    requires LoadedAll(bs).Ok? && AllDecodable(LoadedAll(bs).value) ==>
      forall o :: IsOrder(o, LoadedAll(bs).value) ==> Creatable(Outputs(LoadedAll(bs).value, o))
    ensures if bs == [] then r == Err(BlockError.InvalidArgument)
      else match CollectedAll(bs)
        case Err(e) => r == Err(e)
        case Ok(ks) =>
          if AllDecodable(ks) then IsOrder(order, ks) && r == Ok(Compacted(ulid, bs, ks, order))
          else r.Err? && r.error in {BlockError.IoError, BlockError.Unspecified}
  {
    hide LoadedAll, AllOpen, AllDecodable, IsOrder, Creatable, Outputs, CreatedBlock, SoFar, SortUnique, MaxLevel, SourcesIn;
    order := [];
    if bs == [] {
      return Err(BlockError.InvalidArgument), order;
    }
    var merged, level, sources := CollectBlocks(bs);
    if merged.Err? {
      return Err(merged.error), order;
    }
    var outputs, o := MergeAll(merged.value, LoadedAll(bs).value);
    if outputs.Err? {
      return Err(outputs.error), o;
    }
    var b := CreateFromSeries(ulid, outputs.value);
    return Ok(b.(meta := b.meta.(level := level + 1, sources := SortUnique(Less, sources)))), o;
  }
}
