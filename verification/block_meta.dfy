/** What the metadata of a block says about its contents. */
module BlockMetas {
  import opened Words
  import opened Wrappers
  import opened BigEndian
  import opened Sorting
  import opened SortedSets
  import opened XorCode
  import opened XorChunks
  import opened LabelSets
  import opened MemSeriesModel
  import opened BlockModel
  import opened HeadToBlock
  import opened Compaction
  import HeadBlocks

  // ---- Places ----------------------------------------------------------------

  /** The series that have a chunk. */
  function SeriesPlaces(inputs: seq<SeriesInput>): set<nat> {
    set i: nat | i < |inputs| && inputs[i].chunks != []
  }

  /** Every chunk of every series. */
  function ChunkPlaces(inputs: seq<SeriesInput>): set<(nat, nat)> {
    set i: nat, j: nat | i < |inputs| && j < |inputs[i].chunks| :: (i, j)
  }

  /** Every sample of every chunk of every series. */
  function SamplePlaces(inputs: seq<SeriesInput>): set<(nat, nat, nat)>
    requires AllDecodable(inputs)
  {
    set i: nat, j: nat, k: nat | i < |inputs| && j < |inputs[i].chunks| && k < |DecodeChunk(inputs[i].chunks[j].bytes).value|
      :: (i, j, k)
  }

  function Row(n: nat, m: nat): set<(nat, nat)> {
    set j: nat | j < m :: (n, j)
  }

  lemma {:induction false} RowSize(n: nat, m: nat)
    ensures |Row(n, m)| == m
  {
    if m > 0 {
      RowSize(n, m - 1);
      assert Row(n, m) == Row(n, m - 1) + {(n, m - 1)};
    } else {
      assert Row(n, m) == {};
    }
  }

  function Line(n: nat, j: nat, m: nat): set<(nat, nat, nat)> {
    set k: nat | k < m :: (n, j, k)
  }

  lemma {:induction false} LineSize(n: nat, j: nat, m: nat)
    ensures |Line(n, j, m)| == m
  {
    if m > 0 {
      LineSize(n, j, m - 1);
      assert Line(n, j, m) == Line(n, j, m - 1) + {(n, j, m - 1)};
    } else {
      assert Line(n, j, m) == {};
    }
  }

  /** The samples of one series, as places. */
  function Sheet(n: nat, cs: seq<ChunkInput>): set<(nat, nat, nat)>
    requires Decodable(cs)
  {
    set j: nat, k: nat | j < |cs| && k < |DecodeChunk(cs[j].bytes).value| :: (n, j, k)
  }

  /** The count in the first two bytes is the number of samples. */
  lemma CountIsTrue(bytes: seq<byte>)
    requires DecodeChunk(bytes).Some?
    ensures |DecodeChunk(bytes).value| == if |bytes| >= 2 then BeValue(bytes[..2]) else 0
  {
    hide BeValue, DecRun, BytesBits;
    if |bytes| >= 2 {
      HeadBlocks.RunLength(BeValue(bytes[..2]), BytesBits(bytes[2..]));
    }
  }

  lemma {:induction false} SheetSize(n: nat, cs: seq<ChunkInput>)
    requires Decodable(cs)
    ensures |Sheet(n, cs)| == CountOf(cs)
  {
    hide DecodeChunk, BeValue;
    if cs != [] {
      var init, last := cs[..|cs| - 1], cs[|cs| - 1];
      SheetSize(n, init);
      var m := |DecodeChunk(last.bytes).value|;
      LineSize(n, |init|, m);
      CountIsTrue(last.bytes);
      assert Sheet(n, cs) == Sheet(n, init) + Line(n, |init|, m);
    } else {
      assert Sheet(n, cs) == {};
    }
  }

  lemma {:induction false} CountConcat(a: seq<ChunkInput>, b: seq<ChunkInput>)
    ensures CountOf(a + b) == CountOf(a) + CountOf(b)
    decreases |b|
  {
    hide BeValue;
    if b == [] {
      assert a + b == a;
    } else {
      assert (a + b)[..|a + b| - 1] == a + b[..|b| - 1];
      CountConcat(a, b[..|b| - 1]);
    }
  }

  // ---- The kept series -------------------------------------------------------

  /** Dropping series without chunks drops no chunk. */
  lemma KeptStep(inputs: seq<SeriesInput>)
    requires inputs != []
    ensures var init, last := inputs[..|inputs| - 1], inputs[|inputs| - 1];
      && |Kept(inputs)| == |Kept(init)| + (if last.chunks == [] then 0 else 1)
      && AllInputs(Kept(inputs)) == AllInputs(Kept(init)) + last.chunks
  {
    var init, last := inputs[..|inputs| - 1], inputs[|inputs| - 1];
    if last.chunks == [] {
      assert Kept(init) + [] == Kept(init);
      assert AllInputs(Kept(init)) + last.chunks == AllInputs(Kept(init));
    } else {
      assert Kept(inputs)[..|Kept(init)|] == Kept(init);
    }
  }

  /** The series at these positions, in their order. */
  ghost predicate Picked(inputs: seq<SeriesInput>, picks: seq<nat>, out: seq<SeriesInput>) {
    |out| == |picks| && forall j :: 0 <= j < |picks| ==> picks[j] < |inputs| && out[j] == inputs[picks[j]]
  }

  /** What is written is exactly the series that have a chunk, in the order they were given. */
  lemma {:induction false} KeptMeaning(inputs: seq<SeriesInput>) returns (picks: seq<nat>)
    ensures HeadBlocks.Rising(picks, |inputs|) && forall i: nat :: i in picks <==> i in SeriesPlaces(inputs)
    ensures Picked(inputs, picks, Kept(inputs))
  {
    hide Kept, Picked, HeadBlocks.Rising, SeriesPlaces;
    if inputs == [] {
      picks := [];
      NothingPicked();
    } else {
      var n := |inputs| - 1;
      var before := KeptMeaning(inputs[..n]);
      HeadBlocks.RisingSnoc(before, n);
      PlacesSnoc(inputs);
      PickedSnoc(inputs, before, Kept(inputs[..n]));
      KeptLast(inputs);
      picks := if inputs[n].chunks != [] then before + [n] else before;
    }
  }

  lemma NothingPicked()
    ensures HeadBlocks.Rising([], 0) && Picked([], [], Kept([])) && SeriesPlaces([]) == {}
  {
  }

  lemma KeptLast(inputs: seq<SeriesInput>)
    requires inputs != []
    ensures var init, last := inputs[..|inputs| - 1], inputs[|inputs| - 1];
      Kept(inputs) == if last.chunks == [] then Kept(init) else Kept(init) + [last]
  {
    assert Kept(inputs[..|inputs| - 1]) + [] == Kept(inputs[..|inputs| - 1]);
  }

  lemma PlacesSnoc(inputs: seq<SeriesInput>)
    requires inputs != []
    ensures var n := |inputs| - 1;
      forall i: nat :: i in SeriesPlaces(inputs) <==> i in SeriesPlaces(inputs[..n]) || (i == n && inputs[n].chunks != [])
  {
  }

  lemma PickedSnoc(inputs: seq<SeriesInput>, before: seq<nat>, out: seq<SeriesInput>)
    requires inputs != [] && Picked(inputs[..|inputs| - 1], before, out)
    ensures Picked(inputs, before, out) && Picked(inputs, before + [|inputs| - 1], out + [inputs[|inputs| - 1]])
  {
  }

  lemma PlacesGrow(inputs: seq<SeriesInput>)
    requires inputs != []
    ensures var n := |inputs| - 1;
      |SeriesPlaces(inputs)| == |SeriesPlaces(inputs[..n])| + (if inputs[n].chunks == [] then 0 else 1)
  {
    var n := |inputs| - 1;
    PlacesSnoc(inputs);
    assert n !in SeriesPlaces(inputs[..n]);
    hide SeriesPlaces;
    assert SeriesPlaces(inputs) == SeriesPlaces(inputs[..n]) + (if inputs[n].chunks == [] then {} else {n});
  }

  lemma {:induction false} SeriesCount(inputs: seq<SeriesInput>)
    ensures |Kept(inputs)| == |SeriesPlaces(inputs)|
  {
    hide Kept, SeriesPlaces, AllInputs;
    if inputs != [] {
      SeriesCount(inputs[..|inputs| - 1]);
      KeptStep(inputs);
      PlacesGrow(inputs);
    } else {
      NothingKept();
      NothingPicked();
    }
  }

  lemma NothingKept()
    ensures Kept([]) == [] && AllInputs([]) == [] && CountOf([]) == 0
  {
  }

  lemma {:induction false} ChunkCount(inputs: seq<SeriesInput>)
    ensures |AllInputs(Kept(inputs))| == |ChunkPlaces(inputs)|
  {
    hide Kept, AllInputs;
    if inputs != [] {
      var init, last := inputs[..|inputs| - 1], inputs[|inputs| - 1];
      ChunkCount(init);
      KeptStep(inputs);
      RowSize(|init|, |last.chunks|);
      assert ChunkPlaces(inputs) == ChunkPlaces(init) + Row(|init|, |last.chunks|);
    } else {
      NothingKept();
      assert ChunkPlaces(inputs) == {};
    }
  }

  lemma {:induction false} SampleCounts(inputs: seq<SeriesInput>)
    requires AllDecodable(inputs)
    ensures CountOf(AllInputs(Kept(inputs))) == |SamplePlaces(inputs)|
  {
    hide Kept, AllInputs, CountOf, DecodeChunk;
    if inputs != [] {
      var init, last := inputs[..|inputs| - 1], inputs[|inputs| - 1];
      SampleCounts(init);
      KeptStep(inputs);
      CountConcat(AllInputs(Kept(init)), last.chunks);
      SheetSize(|init|, last.chunks);
      assert SamplePlaces(inputs) == SamplePlaces(init) + Sheet(|init|, last.chunks);
    } else {
      NothingKept();
      assert SamplePlaces(inputs) == {};
    }
  }

  ghost predicate AtSomePlace(inputs: seq<SeriesInput>, c: ChunkInput) {
    exists i, j :: 0 <= i < |inputs| && 0 <= j < |inputs[i].chunks| && inputs[i].chunks[j] == c
  }

  lemma {:induction false} ChunksKept(inputs: seq<SeriesInput>)
    ensures forall c :: c in AllInputs(Kept(inputs)) <==> AtSomePlace(inputs, c)
  {
    hide Kept, AllInputs;
    if inputs != [] {
      var init, last := inputs[..|inputs| - 1], inputs[|inputs| - 1];
      ChunksKept(init);
      KeptStep(inputs);
      forall c
        ensures AtSomePlace(inputs, c) <==> AtSomePlace(init, c) || c in last.chunks
      {
        if i, j :| 0 <= i < |inputs| && 0 <= j < |inputs[i].chunks| && inputs[i].chunks[j] == c {
          assert i < |init| ==> init[i] == inputs[i];
        }
        if i, j :| 0 <= i < |init| && 0 <= j < |init[i].chunks| && init[i].chunks[j] == c {
          assert inputs[i] == init[i];
        }
        if j :| 0 <= j < |last.chunks| && last.chunks[j] == c {
          assert inputs[|inputs| - 1] == last;
        }
      }
    } else {
      NothingKept();
    }
  }

  // ---- A created block -------------------------------------------------------

  /** The time range is the smallest that covers every chunk, zero when there is none. */
  ghost predicate TightRange(inputs: seq<SeriesInput>, m: BlockMeta) {
    && (forall c :: AtSomePlace(inputs, c) ==> m.minTime <= c.minTime && c.maxTime <= m.maxTime)
    && ((exists c, d :: AtSomePlace(inputs, c) && AtSomePlace(inputs, d) && c.minTime == m.minTime && d.maxTime == m.maxTime)
        || ((forall c :: !AtSomePlace(inputs, c)) && m.minTime == m.maxTime == 0))
  }

  /** The metadata of a created block: its own name as its only source, level one, the range of its
      chunks, and how many series, chunks and samples there are. */
  lemma CreatedMeta(ulid: Str, inputs: seq<SeriesInput>)
    ensures var m := CreatedBlock(ulid, inputs).meta;
      && m.ulid == ulid && m.level == 1 && m.sources == [ulid]
      && TightRange(inputs, m)
      && m.numSeries == |SeriesPlaces(inputs)| && m.numChunks == |ChunkPlaces(inputs)|
      && (AllDecodable(inputs) ==> m.numSamples == |SamplePlaces(inputs)|)
  {
    hide Kept, AllInputs, CountOf, SamplePlaces, ChunkPlaces, SeriesPlaces, TightRange, MinOf, MaxOf;
    SeriesCount(inputs);
    ChunkCount(inputs);
    if AllDecodable(inputs) {
      SampleCounts(inputs);
    }
    CreatedRange(ulid, inputs);
  }

  lemma CreatedRange(ulid: Str, inputs: seq<SeriesInput>)
    ensures TightRange(inputs, CreatedBlock(ulid, inputs).meta)
  {
    hide Kept, AllInputs, MinOf, MaxOf, AtSomePlace, CreatedBlock;
    var cs := AllInputs(Kept(inputs));
    ChunksKept(inputs);
    ListRange(cs);
    NoneKept(inputs);
    MetaTimes(ulid, inputs);
  }

  lemma MetaTimes(ulid: Str, inputs: seq<SeriesInput>)
    ensures var m, cs := CreatedBlock(ulid, inputs).meta, AllInputs(Kept(inputs));
      && m.minTime == (if Kept(inputs) == [] then 0 else MinOf(cs))
      && m.maxTime == (if Kept(inputs) == [] then 0 else MaxOf(cs))
  {
    hide Kept, AllInputs, MinOf, MaxOf, CountOf, ContentOf, ChunkFilesOf;
  }

  lemma ListRange(cs: seq<ChunkInput>)
    ensures forall c :: c in cs ==> MinOf(cs) <= c.minTime && c.maxTime <= MaxOf(cs)
    ensures cs != [] ==> exists c, d :: c in cs && d in cs && c.minTime == MinOf(cs) && d.maxTime == MaxOf(cs)
  {
    hide MinOf, MaxOf;
    RangeCovers(cs);
    if cs != [] {
      var i :| 0 <= i < |cs| && cs[i].minTime == MinOf(cs);
      var j :| 0 <= j < |cs| && cs[j].maxTime == MaxOf(cs);
      assert cs[i] in cs && cs[j] in cs;
    }
  }

  lemma {:induction false} NoneKept(inputs: seq<SeriesInput>)
    ensures Kept(inputs) == [] <==> AllInputs(Kept(inputs)) == []
  {
    hide Kept, AllInputs;
    if inputs != [] {
      NoneKept(inputs[..|inputs| - 1]);
      KeptStep(inputs);
    } else {
      NothingKept();
    }
  }

  // ---- What compaction writes ------------------------------------------------

  /** The chunks of an output series are the one way to cut its merged samples, and each carries its
      first and its last time. */
  lemma OutputChunks(ks: seq<SeriesInput>, ls: Labels) returns (css: seq<seq<Sample>>)
    requires AllDecodable(ks)
    ensures CutRight(css) && Flatten(css) == Untimed(Merged(ks, ls))
    ensures forall other :: CutRight(other) && Flatten(other) == Untimed(Merged(ks, ls)) ==> other == css
    ensures |Output(ks, ls).chunks| == |css|
    ensures forall i :: 0 <= i < |css| ==> HoldsSamples(Output(ks, ls).chunks[i], css[i])
  {
    hide Merged, Recut, InputsOf, Flatten, CutRight, HoldsSamples;
    var es := Merged(ks, ls);
    MergedAscending(ks, ls);
    RecutMeaning(ls, es);
    RecutShort(ls, es);
    css := Recut(ls, es).chunks;
    CutAndFlat(Recut(ls, es));
    HeadBlocks.SoundChunks(Recut(ls, es));
    InputsHold(css);
    forall other | CutRight(other) && Flatten(other) == Untimed(es)
      ensures other == css
    {
      CutsUnique(other, css);
    }
  }

  lemma CutAndFlat(s: Series)
    requires WellFormedSeries(s)
    ensures CutRight(s.chunks) && Flatten(s.chunks) == Samples(s)
  {
    hide CutRight, Flatten;
  }

  ghost predicate HoldsSamples(c: ChunkInput, ss: seq<Sample>) {
    DecodeChunk(c.bytes) == Some(ss) && ss != [] && c.minTime == ss[0].t && c.maxTime == ss[|ss| - 1].t
  }

  lemma {:induction false} InputsHold(css: seq<seq<Sample>>)
    requires Short(css) && forall i :: 0 <= i < |css| ==> css[i] != []
    ensures |InputsOf(css)| == |css| && forall i :: 0 <= i < |css| ==> HoldsSamples(InputsOf(css)[i], css[i])
  {
    hide BytesOf, DecodeChunk, InputsOf, HoldsSamples;
    if css == [] {
      NoInput();
    } else {
      var init, ss := css[..|css| - 1], css[|css| - 1];
      InputsHold(init);
      InputsLast(css);
      OneHolds(ss);
      assert forall i :: 0 <= i < |init| ==> init[i] == css[i];
    }
  }

  lemma OneHolds(ss: seq<Sample>)
    requires 0 < |ss| <= MAX_SAMPLES
    ensures HoldsSamples(ChunkInput(ss[0].t, ss[|ss| - 1].t, BytesOf(ss)), ss)
  {
    hide BytesOf, DecodeChunk;
    BytesDecode(ss);
  }

  // ---- Which sample wins -----------------------------------------------------

  lemma {:induction false} SampleSource(cs: seq<ChunkInput>, n: nat) returns (j: nat, k: nat)
    requires Decodable(cs) && n < |SamplesIn(cs)|
    ensures j < |cs| && k < |DecodeChunk(cs[j].bytes).value|
    ensures var x := DecodeChunk(cs[j].bytes).value[k]; SamplesIn(cs)[n] == Entry(x.t, x.v)
  {
    hide DecodeChunk;
    var m := |cs| - 1;
    if n < |SamplesIn(cs[..m])| {
      j, k := SampleSource(cs[..m], n);
    } else {
      j, k := m, n - |SamplesIn(cs[..m])|;
    }
  }

  lemma LastSeries(ks: seq<SeriesInput>, ls: Labels)
    requires ks != [] && AllDecodable(ks)
    ensures var m := |ks| - 1;
      AllDecodable(ks[..m]) && Decodable(ks[m].chunks)
      && SamplesFor(ks, ls) == SamplesFor(ks[..m], ls) + (if ks[m].labels == ls then SamplesIn(ks[m].chunks) else [])
  {
    hide Decodable, SamplesIn, DecodeChunk;
    var m := |ks| - 1;
    GatheredDecodable(ks[..m], ls);
    if ks[m].labels == ls {
      SamplesInConcat(Gathered(ks[..m], ls), ks[m].chunks);
    } else {
      assert Gathered(ks[..m], ls) + [] == Gathered(ks[..m], ls);
    }
  }

  /** Chunk `j` of series `i`, which has the labels, holds a sample `k`. */
  ghost predicate SampleThere(ks: seq<SeriesInput>, ls: Labels, i: nat, j: nat, k: nat)
    requires AllDecodable(ks)
  {
    i < |ks| && ks[i].labels == ls && j < |ks[i].chunks| && k < |DecodeChunk(ks[i].chunks[j].bytes).value|
  }

  function SampleAt(ks: seq<SeriesInput>, i: nat, j: nat, k: nat): Sample
    requires AllDecodable(ks) && i < |ks| && j < |ks[i].chunks| && k < |DecodeChunk(ks[i].chunks[j].bytes).value|
  {
    DecodeChunk(ks[i].chunks[j].bytes).value[k]
  }

  /** Of two places: the series counts first, then the chunk, then the sample. */
  predicate Behind(i: nat, j: nat, k: nat, i': nat, j': nat, k': nat) {
    i < i' || (i == i' && (j < j' || (j == j' && k < k')))
  }

  /** No sample of the labels that stands behind this one has its time. */
  ghost predicate NoneBehind(ks: seq<SeriesInput>, ls: Labels, i: nat, j: nat, k: nat)
    requires AllDecodable(ks) && SampleThere(ks, ls, i, j, k)
  {
    forall i': nat, j': nat, k': nat :: SampleThere(ks, ls, i', j', k') && Behind(i, j, k, i', j', k') ==>
      SampleAt(ks, i', j', k').t != SampleAt(ks, i, j, k).t
  }

  /** The sample is the last one of its time in these chunks. */
  ghost predicate LastInChunks(cs: seq<ChunkInput>, j: nat, k: nat)
    requires Decodable(cs) && j < |cs| && k < |DecodeChunk(cs[j].bytes).value|
  {
    forall j', k' :: j <= j' < |cs| && 0 <= k' < |DecodeChunk(cs[j'].bytes).value| && (j' > j || k' > k) ==>
      DecodeChunk(cs[j'].bytes).value[k'].t != DecodeChunk(cs[j].bytes).value[k].t
  }

  lemma {:induction false} LastInChunksWins(cs: seq<ChunkInput>, j: nat, k: nat)
    requires Decodable(cs) && j < |cs| && k < |DecodeChunk(cs[j].bytes).value| && LastInChunks(cs, j, k)
    ensures var x := DecodeChunk(cs[j].bytes).value[k];
      x.t in LastWins(SamplesIn(cs)) && LastWins(SamplesIn(cs))[x.t] == x.v
    decreases |cs|
  {
    hide DecodeChunk, LastWins;
    var m := |cs| - 1;
    var ss := DecodeChunk(cs[m].bytes).value;
    LastWinsConcat(SamplesIn(cs[..m]), Timed(ss));
    if j == m {
      LastWinsMeaning(Timed(ss), k);
    } else {
      var t := DecodeChunk(cs[j].bytes).value[k].t;
      forall n | 0 <= n < |Timed(ss)|
        ensures Timed(ss)[n].key != t
      {
      }
      AbsentKey(Timed(ss), t);
      LastInChunksWins(cs[..m], j, k);
    }
  }

  /** Under a label set each time has the value of its last sample in series, chunk and sample
      order. */
  lemma {:induction false} LastSampleWins(ks: seq<SeriesInput>, ls: Labels, i: nat, j: nat, k: nat)
    requires AllDecodable(ks) && SampleThere(ks, ls, i, j, k)
    requires NoneBehind(ks, ls, i, j, k)
    ensures var x := SampleAt(ks, i, j, k);
      x.t in LastWins(SamplesFor(ks, ls)) && LastWins(SamplesFor(ks, ls))[x.t] == x.v
    decreases |ks|
  {
    hide Decodable, SamplesIn, DecodeChunk, SamplesFor, LastWins;
    var m, x := |ks| - 1, SampleAt(ks, i, j, k);
    LastSeries(ks, ls);
    var more := if ks[m].labels == ls then SamplesIn(ks[m].chunks) else [];
    LastWinsConcat(SamplesFor(ks[..m], ls), more);
    if i == m {
      LastHere(ks, ls, m, j, k);
      LastInChunksWins(ks[m].chunks, j, k);
    } else {
      forall n | 0 <= n < |more|
        ensures more[n].key != x.t
      {
        var j', k' := SampleSource(ks[m].chunks, n);
        assert SampleThere(ks, ls, m, j', k') && Behind(i, j, k, m, j', k');
      }
      AbsentKey(more, x.t);
      LastBefore(ks, ls, i, j, k);
      LastSampleWins(ks[..m], ls, i, j, k);
    }
  }

  lemma LastHere(ks: seq<SeriesInput>, ls: Labels, m: nat, j: nat, k: nat)
    requires AllDecodable(ks) && SampleThere(ks, ls, m, j, k) && NoneBehind(ks, ls, m, j, k)
    ensures Decodable(ks[m].chunks) && LastInChunks(ks[m].chunks, j, k)
  {
    hide DecodeChunk;
    var cs := ks[m].chunks;
    forall j', k' | j <= j' < |cs| && 0 <= k' < |DecodeChunk(cs[j'].bytes).value| && (j' > j || k' > k)
      ensures DecodeChunk(cs[j'].bytes).value[k'].t != DecodeChunk(cs[j].bytes).value[k].t
    {
      assert SampleThere(ks, ls, m, j', k') && Behind(m, j, k, m, j', k');
    }
  }

  lemma LastBefore(ks: seq<SeriesInput>, ls: Labels, i: nat, j: nat, k: nat)
    requires ks != [] && AllDecodable(ks) && i < |ks| - 1 && SampleThere(ks, ls, i, j, k)
    requires NoneBehind(ks, ls, i, j, k)
    ensures var init := ks[..|ks| - 1];
      && AllDecodable(init) && SampleThere(init, ls, i, j, k) && SampleAt(init, i, j, k) == SampleAt(ks, i, j, k)
      && NoneBehind(init, ls, i, j, k)
  {
    hide DecodeChunk;
    var init := ks[..|ks| - 1];
    forall i': nat, j': nat, k': nat | SampleThere(init, ls, i', j', k') && Behind(i, j, k, i', j', k')
      ensures SampleAt(init, i', j', k').t != SampleAt(init, i, j, k).t
    {
      assert SampleThere(ks, ls, i', j', k');
    }
  }

  /** Of all samples of one time under a label set, compaction keeps the last one: in the last block,
      there in the last series, chunk and place. */
  lemma CompactionKeepsLast(c: Block, bs: seq<Block>, ks: seq<SeriesInput>, ls: Labels, i: nat, j: nat, k: nat)
    requires IsCompaction(c, bs) && LoadedAll(bs) == Ok(ks) && AllDecodable(ks) && ls != []
    requires SampleThere(ks, ls, i, j, k) && NoneBehind(ks, ls, i, j, k)
    ensures exists es :: Gives(c, ls, es) && Entry(SampleAt(ks, i, j, k).t, SampleAt(ks, i, j, k).v) in es
  {
    hide IsCompaction, LoadedAll, AllDecodable, Gives, NoneBehind, SampleAt, SamplesFor, LastWins, Merged, DecodeChunk;
    var x, es := SampleAt(ks, i, j, k), Merged(ks, ls);
    CompactionGives(c, bs, ks, ls);
    LastSampleWins(ks, ls, i, j, k);
    MergedAscending(ks, ls);
    EarlierStrictTotal();
    var n := KeysOf(es, x.t);
    AscendingLookup(Earlier, es, n);
    assert es[n] == Entry(x.t, x.v);
  }

  /** The metadata of a compacted block: one level above the highest input, every source of every
      input once and in order, and the rest as of any created block. */
  lemma CompactedMeta(c: Block, bs: seq<Block>)
    requires IsCompaction(c, bs)
    ensures forall i :: 0 <= i < |bs| ==> bs[i].meta.level < c.meta.level
    ensures c.meta.level == 1 || exists i :: 0 <= i < |bs| && c.meta.level == bs[i].meta.level + 1
    ensures InByteOrder(c.meta.sources)
    ensures forall s :: s in c.meta.sources <==> exists i :: 0 <= i < |bs| && s in bs[i].meta.sources
  {
    hide IsCompaction, SortUnique, MaxLevel, SourcesIn, Less, Precedes;
    CompactionSources(c, bs);
    LevelsBelow(bs);
    SourcesMembers(bs);
    LessStrictTotal();
    SortUniqueMeaning(Less, SourcesIn(bs));
    var ss := c.meta.sources;
    forall i, j | 0 <= i < j < |ss|
      ensures Precedes(ss[i], ss[j])
    {
      LessMeaning(ss[i], ss[j]);
    }
  }

  /** The rest is as for any created block: the range and the numbers of the outputs. */
  lemma CompactedRange(c: Block, bs: seq<Block>, ulid: Str, ks: seq<SeriesInput>, order: seq<Labels>)
    requires CompactedAs(c, bs, ulid, ks, order)
    ensures var outs, m := Outputs(ks, order), c.meta;
      && m.ulid == ulid && TightRange(outs, m)
      && m.numSeries == |SeriesPlaces(outs)| && m.numChunks == |ChunkPlaces(outs)|
      && AllDecodable(outs) && m.numSamples == |SamplePlaces(outs)|
  {
    hide Outputs, CreatedBlock, SeriesPlaces, ChunkPlaces, SamplePlaces, TightRange, SortUnique, MaxLevel, SourcesIn, AllDecodable,
      IsOrder, LoadedAll, Found, FitsBlock, Kept;
    var outs := Outputs(ks, order);
    CreatedMeta(ulid, outs);
    FoundDecodable(ks, order);
    SameRange(outs, CreatedBlock(ulid, outs).meta, c.meta);
  }

  lemma SameRange(inputs: seq<SeriesInput>, m: BlockMeta, n: BlockMeta)
    requires TightRange(inputs, m) && m.minTime == n.minTime && m.maxTime == n.maxTime
    ensures TightRange(inputs, n)
  {
    hide AtSomePlace;
  }

  lemma {:induction false} LevelsBelow(bs: seq<Block>)
    ensures forall i :: 0 <= i < |bs| ==> bs[i].meta.level <= MaxLevel(bs)
    ensures MaxLevel(bs) == 0 || exists i :: 0 <= i < |bs| && bs[i].meta.level == MaxLevel(bs)
  {
    if bs != [] {
      var init, last := bs[..|bs| - 1], bs[|bs| - 1];
      LevelsBelow(init);
      assert forall i :: 0 <= i < |init| ==> init[i] == bs[i];
      if MaxLevel(bs) == last.meta.level {
        assert bs[|bs| - 1].meta.level == MaxLevel(bs);
      } else if MaxLevel(bs) != 0 {
        var i :| 0 <= i < |init| && init[i].meta.level == MaxLevel(init);
        assert bs[i].meta.level == MaxLevel(bs);
      }
    }
  }

  lemma {:induction false} SourcesMembers(bs: seq<Block>)
    ensures forall s :: s in SourcesIn(bs) <==> exists i :: 0 <= i < |bs| && s in bs[i].meta.sources
  {
    if bs != [] {
      var init, last := bs[..|bs| - 1], bs[|bs| - 1];
      SourcesMembers(init);
      assert forall i :: 0 <= i < |init| ==> init[i] == bs[i];
      forall s
        ensures (exists i :: 0 <= i < |bs| && s in bs[i].meta.sources) <==>
          (exists i :: 0 <= i < |init| && s in init[i].meta.sources) || s in last.meta.sources
      {
        if s in last.meta.sources {
          assert s in bs[|bs| - 1].meta.sources;
        }
        if i :| 0 <= i < |init| && s in init[i].meta.sources {
          assert s in bs[i].meta.sources;
        }
      }
    }
  }
}
