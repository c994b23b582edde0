/** Writing a block: chunks, symbols, series, postings and metadata, step by step. */
module BlockWriters {
  import opened Words
  import opened Wrappers
  import opened Sorting
  import opened SortedSets
  import opened LabelSets
  import opened Queries
  import opened ChunkFiles
  import opened IndexFormat
  import opened IndexFiles
  import opened IndexWriters
  import opened PostingAlgebra
  import opened BlockModel

  // ---- Chunks ----------------------------------------------------------------

  lemma WroteOne(cs: seq<Chunk>, c: Chunk, size: nat)
    ensures var (segs, refs) := WroteAll(cs, size);
      var (segs', s, o) := Wrote(segs, c, size);
      WroteAll(cs + [c], size) == (segs', refs + [(s, o)])
  {
    hide Wrote;
    assert (cs + [c])[..|cs|] == cs;
  }

  /** References given out stay as they are. */
  lemma {:induction false} RefsStay(a: seq<Chunk>, b: seq<Chunk>, size: nat)
    ensures WroteAll(a, size).1 <= WroteAll(a + b, size).1
    decreases |b|
  {
    hide Wrote;
    if b == [] {
      assert a + b == a;
    } else {
      assert (a + b)[..|a + b| - 1] == a + b[..|b| - 1];
      RefsStay(a, b[..|b| - 1], size);
    }
  }

  lemma KeptStep(inputs: seq<SeriesInput>, n: nat)
    requires n < |inputs|
    ensures Kept(inputs[..n + 1]) == Kept(inputs[..n]) + (if inputs[n].chunks == [] then [] else [inputs[n]])
  {
    assert inputs[..n + 1][..n] == inputs[..n];
  }

  lemma FlatSnoc(ks: seq<SeriesInput>, k: SeriesInput)
    ensures FlatChunks(ks + [k]) == FlatChunks(ks) + ChunkList(k.chunks)
    ensures AllInputs(ks + [k]) == AllInputs(ks) + k.chunks
    ensures (ks + [k])[..|ks|] == ks
  {
    assert (ks + [k])[..|ks|] == ks;
  }

  /** Adding a series does not change the entries of those before it. */
  lemma MetasStay(ks: seq<SeriesInput>, k: SeriesInput, i: nat)
    requires i < |ks|
    ensures MetasOf(ks + [k], i) == MetasOf(ks, i)
  {
    FlatSnoc(ks, k);
    FlatAt(ks, i);
    FlatAt(ks + [k], i);
    assert (ks + [k])[..i] == ks[..i];
    hide FlatChunks, WroteAll;
    RefsStay(FlatChunks(ks), ChunkList(k.chunks), DEFAULT_CHUNKS_SEGMENT_SIZE);
    var a, b := ChunkFilesOf(ks).1, ChunkFilesOf(ks + [k]).1;
    assert forall n :: 0 <= n < |a| ==> a[n] == b[n];
  }

  lemma MetasLast(ks: seq<SeriesInput>, k: SeriesInput)
    ensures |FlatChunks(ks)| + |k.chunks| == |ChunkFilesOf(ks + [k]).1|
    ensures MetasOf(ks + [k], |ks|) == MetasAt(k.chunks, ChunkFilesOf(ks + [k]).1, |FlatChunks(ks)|)
  {
    FlatSnoc(ks, k);
    hide FlatChunks, WroteAll;
  }

  /** The chunks of one series and what the metadata takes from them. */
  datatype Totals = Totals(minTime: i64, maxTime: i64, samples: nat, chunks: nat)

  function TotalsOf(cs: seq<ChunkInput>): Totals {
    Totals(MinOf(cs), MaxOf(cs), CountOf(cs), |cs|)
  }

  method WriteSeriesChunks(cw: ChunkWriter, s: SeriesInput, before: Totals, ghost ks: seq<SeriesInput>)
    returns (metas: seq<ChunkMeta>, totals: Totals)
    requires cw.Valid() && !cw.closed && cw.size == DEFAULT_CHUNKS_SEGMENT_SIZE
    requires cw.files == ChunkFilesOf(ks).0 && before == TotalsOf(AllInputs(ks))
    requires forall j :: 0 <= j < |s.chunks| ==> |s.chunks[j].bytes| < TWO64
    modifies cw
    ensures cw.Valid() && !cw.closed && cw.files == ChunkFilesOf(ks + [s]).0
    ensures metas == MetasOf(ks + [s], |ks|) && totals == TotalsOf(AllInputs(ks + [s]))
  {
    hide FlatChunks, WroteAll, MetasOf, AllInputs, Wrote, MinOf, MaxOf, CountOf, Entries, ChunkWriter.Valid;
    FlatSnoc(ks, s);
    ghost var done := FlatChunks(ks);
    metas, totals := [], before;
    StartEntries(s.chunks, done, AllInputs(ks));
    for j := 0 to |s.chunks|
      invariant cw.Valid() && !cw.closed
      invariant cw.files == WroteAll(done + ChunkList(s.chunks[..j]), DEFAULT_CHUNKS_SEGMENT_SIZE).0
      invariant totals == TotalsOf(AllInputs(ks) + s.chunks[..j])
      invariant Entries(metas, s.chunks[..j], done + ChunkList(s.chunks[..j]), |done|)
    {
      var chk := s.chunks[j];
      ghost var cs := done + ChunkList(s.chunks[..j]);
      OneMoreChunk(s.chunks, j, done, AllInputs(ks));
      WroteOne(cs, Chunk(XOR_ENCODING, chk.bytes), DEFAULT_CHUNKS_SEGMENT_SIZE);
      EntriesSnoc(metas, s.chunks[..j], cs, |done|, chk);
      TotalsSnoc(AllInputs(ks) + s.chunks[..j], chk);
      var ref := cw.Write(XOR_ENCODING, chk.bytes);
      metas := metas + [ChunkMeta(chk.minTime, chk.maxTime, Packed(RefOf(ref.value.0, ref.value.1)))];
      var minTime := if chk.minTime < totals.minTime then chk.minTime else totals.minTime;
      var maxTime := if chk.maxTime > totals.maxTime then chk.maxTime else totals.maxTime;
      var n := if |chk.bytes| >= 2 then BeValue(chk.bytes[..2]) else 0;
      totals := Totals(minTime, maxTime, totals.samples + n, totals.chunks + 1);
    }
    assert s.chunks[..|s.chunks|] == s.chunks;
    EntriesAreMetas(metas, ks, s);
  }

  /** The entries of some chunks, the first of which was the `base`-th written. */
  ghost predicate Entries(metas: seq<ChunkMeta>, inputs: seq<ChunkInput>, cs: seq<Chunk>, base: nat) {
    |metas| == |inputs| && base + |inputs| == |cs| && forall n :: 0 <= n < |inputs| ==> metas[n] == MetaAt(inputs[n], cs, base + n)
  }

  lemma StartEntries(inputs: seq<ChunkInput>, done: seq<Chunk>, all: seq<ChunkInput>)
    ensures done + ChunkList(inputs[..0]) == done && all + inputs[..0] == all
    ensures Entries([], inputs[..0], done + ChunkList(inputs[..0]), |done|)
  {
  }

  lemma OneMoreChunk(inputs: seq<ChunkInput>, j: nat, done: seq<Chunk>, all: seq<ChunkInput>)
    requires j < |inputs|
    ensures done + ChunkList(inputs[..j + 1]) == done + ChunkList(inputs[..j]) + [Chunk(XOR_ENCODING, inputs[j].bytes)]
    ensures inputs[..j + 1] == inputs[..j] + [inputs[j]] && all + inputs[..j + 1] == all + inputs[..j] + [inputs[j]]
  {
  }

  lemma EntriesSnoc(metas: seq<ChunkMeta>, inputs: seq<ChunkInput>, cs: seq<Chunk>, base: nat, chk: ChunkInput)
    requires Entries(metas, inputs, cs, base)
    ensures var (segs, s, o) := Wrote(WroteAll(cs, DEFAULT_CHUNKS_SEGMENT_SIZE).0, Chunk(XOR_ENCODING, chk.bytes), DEFAULT_CHUNKS_SEGMENT_SIZE);
      Entries(metas + [ChunkMeta(chk.minTime, chk.maxTime, Packed(RefOf(s, o)))], inputs + [chk],
              cs + [Chunk(XOR_ENCODING, chk.bytes)], base)
  {
    hide Wrote, WroteAll;
    var c := Chunk(XOR_ENCODING, chk.bytes);
    WroteOne(cs, c, DEFAULT_CHUNKS_SEGMENT_SIZE);
    forall n | 0 <= n < |inputs|
      ensures MetaAt(inputs[n], cs + [c], base + n) == MetaAt(inputs[n], cs, base + n)
    {
      MetaStays(inputs[n], cs, c, base + n);
    }
  }

  lemma EntriesAreMetas(metas: seq<ChunkMeta>, ks: seq<SeriesInput>, s: SeriesInput)
    requires Entries(metas, s.chunks, FlatChunks(ks + [s]), |FlatChunks(ks)|)
    ensures metas == MetasOf(ks + [s], |ks|)
  {
    MetasLast(ks, s);
    hide FlatChunks, WroteAll, MetasOf;
    assert metas == MetasAt(s.chunks, ChunkFilesOf(ks + [s]).1, |FlatChunks(ks)|);
  }

  /** The index entry of the `n`-th chunk written. */
  function MetaAt(c: ChunkInput, cs: seq<Chunk>, n: nat): ChunkMeta
    requires n < |cs|
  {
    var refs := WroteAll(cs, DEFAULT_CHUNKS_SEGMENT_SIZE).1;
    ChunkMeta(c.minTime, c.maxTime, Packed(RefOf(refs[n].0, refs[n].1)))
  }

  lemma MetaStays(c: ChunkInput, cs: seq<Chunk>, next: Chunk, n: nat)
    requires n < |cs|
    ensures MetaAt(c, cs + [next], n) == MetaAt(c, cs, n)
  {
    hide Wrote;
    WroteOne(cs, next, DEFAULT_CHUNKS_SEGMENT_SIZE);
  }

  lemma TotalsSnoc(cs: seq<ChunkInput>, c: ChunkInput)
    ensures var t := TotalsOf(cs);
      TotalsOf(cs + [c]) == Totals(if c.minTime < t.minTime then c.minTime else t.minTime,
                                   if c.maxTime > t.maxTime then c.maxTime else t.maxTime,
                                   t.samples + (if |c.bytes| >= 2 then BeValue(c.bytes[..2]) else 0), t.chunks + 1)
  {
    hide BeValue;
    assert (cs + [c])[..|cs|] == cs;
  }

  datatype Prepared = Prepared(input: SeriesInput, metas: seq<ChunkMeta>)

  ghost predicate AllPrepared(ps: seq<Prepared>, ks: seq<SeriesInput>) {
    |ps| == |ks| && forall i :: 0 <= i < |ks| ==> ps[i] == Prepared(ks[i], MetasOf(ks, i))
  }

  lemma PreparedSnoc(ps: seq<Prepared>, ks: seq<SeriesInput>, k: SeriesInput)
    requires AllPrepared(ps, ks)
    ensures AllPrepared(ps + [Prepared(k, MetasOf(ks + [k], |ks|))], ks + [k])
  {
    hide MetasOf;
    forall i | 0 <= i < |ks|
      ensures MetasOf(ks + [k], i) == MetasOf(ks, i)
    {
      MetasStay(ks, k, i);
    }
  }

  /** Writes all chunks, series by series. */
  method WriteChunks(inputs: seq<SeriesInput>) returns (prepared: seq<Prepared>, files: seq<seq<byte>>, totals: Totals)
    requires forall i, j :: 0 <= i < |inputs| && 0 <= j < |inputs[i].chunks| ==> |inputs[i].chunks[j].bytes| < TWO64
    ensures AllPrepared(prepared, Kept(inputs)) && files == ChunkFilesOf(Kept(inputs)).0
    ensures totals == TotalsOf(AllInputs(Kept(inputs)))
  {
    hide MetasOf, FlatChunks, WroteAll, Kept, AllInputs;
    var cw := new ChunkWriter(DEFAULT_CHUNKS_SEGMENT_SIZE);
    prepared := [];
    totals := Totals(0x7FFF_FFFF_FFFF_FFFF, -0x8000_0000_0000_0000, 0, 0);
    NothingWritten(inputs);
    for n := 0 to |inputs|
      invariant cw.Valid() && !cw.closed && cw.size == DEFAULT_CHUNKS_SEGMENT_SIZE && fresh(cw)
      invariant cw.files == ChunkFilesOf(Kept(inputs[..n])).0
      invariant AllPrepared(prepared, Kept(inputs[..n])) && totals == TotalsOf(AllInputs(Kept(inputs[..n])))
    {
      var s := inputs[n];
      KeptStep(inputs, n);
      if s.chunks == [] {
        assert Kept(inputs[..n]) + [] == Kept(inputs[..n]);
        continue;
      }
      ghost var ks := Kept(inputs[..n]);
      var metas, sums := WriteSeriesChunks(cw, s, totals, ks);
      PreparedSnoc(prepared, ks, s);
      prepared, totals := prepared + [Prepared(s, metas)], sums;
    }
    assert inputs[..|inputs|] == inputs;
    cw.Close();
    files := cw.files;
  }

  lemma NothingWritten(inputs: seq<SeriesInput>)
    ensures Kept(inputs[..0]) == [] && ChunkFilesOf([]).0 == [SEGMENT_HEADER]
    ensures TotalsOf(AllInputs([])) == Totals(0x7FFF_FFFF_FFFF_FFFF, -0x8000_0000_0000_0000, 0, 0)
  {
  }

  // ---- Symbols ---------------------------------------------------------------

  method CollectStrings(ps: seq<Prepared>, ghost ks: seq<SeriesInput>) returns (strings: seq<Str>)
    requires AllPrepared(ps, ks)
    ensures strings == [[]] + AllStrings(ks)
  {
    hide MetasOf;
    strings := [[]];
    assert ks[..0] == [];
    for i := 0 to |ps|
      invariant strings == [[]] + AllStrings(ks[..i])
    {
      assert ks[..i + 1][..i] == ks[..i];
      var ls := ps[i].input.labels;
      for k := 0 to |ls|
        invariant strings == [[]] + (AllStrings(ks[..i]) + Strings(ls[..k]))
      {
        StringsStep(ls, k);
        var pair := [ls[k].key, ls[k].val];
        assert AllStrings(ks[..i]) + Strings(ls[..k]) + pair == AllStrings(ks[..i]) + (Strings(ls[..k]) + pair);
        strings := strings + pair;
      }
      assert ls[..|ls|] == ls;
    }
    assert ks[..|ks|] == ks;
  }

  lemma StringsStep(ls: seq<Label>, k: nat)
    requires k < |ls|
    ensures Strings(ls[..k + 1]) == Strings(ls[..k]) + [ls[k].key, ls[k].val]
  {
    assert ls[..k + 1][..k] == ls[..k];
  }

  /** Each of the first symbols, and nothing else, with its reference. */
  ghost predicate RefsMap(m: map<Str, u32>, syms: seq<Str>, n: nat) {
    && (forall i :: 0 <= i < n && i < |syms| ==> syms[i] in m && m[syms[i]] == Position(syms, syms[i]) % TWO32)
    && forall s :: s in m ==> exists i :: 0 <= i < n && i < |syms| && syms[i] == s
  }

  lemma {:induction false} PositionOf(syms: seq<Str>, i: nat)
    requires Ascends(Less, syms) && i < |syms|
    ensures Position(syms, syms[i]) == i
    decreases |syms|
  {
    if i > 0 {
      assert Less(syms[0], syms[i]);
      LessIrreflexive(syms[0]);
      PositionOf(syms[1..], i - 1);
    }
  }

  /** Symbols in order, each getting its reference. */
  method AddSymbols(iw: IndexWriter, syms: seq<Str>) returns (refs: map<Str, u32>)
    requires iw.Valid() && iw.stage == SymbolsStage && iw.content == IndexContent([], [], [])
    requires Ascends(Less, syms) && AllCountable(syms)
    modifies iw
    ensures iw.Valid() && iw.stage == SeriesStage && iw.content == IndexContent(syms, [], [])
    ensures RefsMap(refs, syms, |syms|)
  {
    hide IndexWriter.Valid, Position, AllCountable, Ascends, Less, RefsMap;
    refs := map[];
    NoRefsYet(syms);
    for i := 0 to |syms|
      invariant iw.Valid() && iw.stage == SymbolsStage && iw.content == IndexContent(syms[..i], [], [])
      invariant RefsMap(refs, syms, i)
    {
      var s := syms[i];
      CountableAt(syms, i);
      InOrder(syms, i);
      var r := iw.AddSymbol(s);
      assert syms[..i] + [s] == syms[..i + 1];
      RefsMapStep(refs, syms, i);
      if s !in refs {
        refs := refs[s := r.value];
      }
    }
    assert syms[..|syms|] == syms;
    var finished := iw.FinishSymbols();
  }

  lemma NoRefsYet(syms: seq<Str>)
    ensures RefsMap(map[], syms, 0) && syms[..0] == []
  {
  }

  lemma RefsMapStep(refs: map<Str, u32>, syms: seq<Str>, i: nat)
    requires i < |syms| && Ascends(Less, syms) && RefsMap(refs, syms, i)
    ensures RefsMap(if syms[i] in refs then refs else refs[syms[i] := i % TWO32], syms, i + 1)
  {
    hide Position, Less;
    PositionOf(syms, i);
    forall k | 0 <= k < i
      ensures syms[k] != syms[i]
    {
      assert Less(syms[k], syms[i]);
      LessIrreflexive(syms[i]);
    }
  }

  lemma InOrder(syms: seq<Str>, i: nat)
    requires Ascends(Less, syms) && i < |syms|
    ensures i > 0 ==> !Less(syms[i], syms[i - 1])
    ensures i > 0 ==> syms[..i] != [] && syms[..i][|syms[..i]| - 1] == syms[i - 1]
  {
    if i > 0 {
      NotBoth(syms[i - 1], syms[i]);
    }
  }

  lemma CountableAt(syms: seq<Str>, i: nat)
    requires AllCountable(syms) && i < |syms|
    ensures |syms[i]| < TWO64
  {
  }

  lemma NotBoth(a: Str, b: Str)
    requires Less(a, b)
    ensures !Less(b, a)
  {
    if Less(b, a) {
      LessTransitive(a, b, a);
      LessIrreflexive(a);
    }
  }

  // ---- Series and postings ---------------------------------------------------

  method TranslateLabels(ls: Labels, refs: map<Str, u32>, ghost syms: seq<Str>) returns (r: seq<(u32, u32)>)
    requires RefsMap(refs, syms, |syms|) && forall k :: 0 <= k < |ls| ==> ls[k].key in syms && ls[k].val in syms
    ensures r == LabelRefs(syms, ls)
  {
    hide Position;
    r := [];
    for k := 0 to |ls|
      invariant |r| == k && forall n :: 0 <= n < k ==> r[n] == LabelRefs(syms, ls)[n]
    {
      assert ls[k].key in syms && ls[k].val in syms;
      r := r + [(refs[ls[k].key], refs[ls[k].val])];
    }
  }

  /** The identifiers collected for each label so far. */
  ghost predicate Collecting(m: map<NameValue, seq<nat>>, ks: seq<SeriesInput>, n: nat)
    requires n <= |ks|
  {
    && (forall p :: p in m <==> PairSomewhere(ks[..n], p))
    && forall p :: p in m ==> m[p] == IdsOf(RowsOf(ks)[..n], Pair(p.0, p.1))
  }

  /** Pushes an identifier under every label of a series. */
  method PushId(postings: map<NameValue, seq<nat>>, keys: seq<NameValue>, ls: Labels, id: nat)
    returns (m: map<NameValue, seq<nat>>, ps: seq<NameValue>)
    ensures ps == keys + PairsIn(ls)
    ensures forall p :: p in m <==> p in postings || p in PairsIn(ls)
    ensures forall p :: p in m ==> m[p] == (if p in postings then postings[p] else []) + (if p in PairsIn(ls) then [id] else [])
  {
    hide PairsIn;
    m, ps := postings, keys;
    NoPairs(ls);
    for k := 0 to |ls|
      invariant ps == keys + PairsIn(ls[..k])
      invariant forall p :: p in m <==> p in postings || p in PairsIn(ls[..k])
      invariant forall p :: p in m ==>
        m[p] == (if p in postings then postings[p] else []) + (if p in PairsIn(ls[..k]) then [id] else [])
    {
      var p := (ls[k].key, ls[k].val);
      PairsStep(ls, k);
      assert keys + PairsIn(ls[..k]) + [p] == keys + (PairsIn(ls[..k]) + [p]);
      m := m[p := (if p in m then m[p] else []) + [id]];
      ps := ps + [p];
    }
    assert ls[..|ls|] == ls;
  }

  lemma NoPairs(ls: seq<Label>)
    ensures PairsIn(ls[..0]) == []
  {
  }

  /** A label set names each label once, so each of its labels is new. */
  lemma PairsStep(ls: Labels, k: nat)
    requires k < |ls|
    ensures PairsIn(ls[..k + 1]) == PairsIn(ls[..k]) + [(ls[k].key, ls[k].val)]
    ensures (ls[k].key, ls[k].val) !in PairsIn(ls[..k])
  {
    assert ls[..k + 1][..k] == ls[..k];
    PairsInMembers(ls[..k]);
    forall i | 0 <= i < |ls[..k]|
      ensures (ls[k].key, ls[k].val) != (ls[..k][i].key, ls[..k][i].val)
    {
      assert Less(ls[i].key, ls[k].key);
      LessIrreflexive(ls[k].key);
    }
  }

  lemma PairIsLabel(ls: Labels, p: NameValue)
    ensures p in PairsIn(ls) <==> Holds(Pair(p.0, p.1), ls)
  {
    hide Get, PairsIn;
    PairsInMembers(ls);
    if p in PairsIn(ls) {
      var k :| 0 <= k < |ls| && p == (ls[k].key, ls[k].val);
      LabelValue(ls, k);
    }
    if Holds(Pair(p.0, p.1), ls) {
      var k := LabelThere(ls, p.0);
      assert p == (ls[k].key, ls[k].val);
    }
  }

  lemma CollectingStart(ks: seq<SeriesInput>)
    ensures Collecting(map[], ks, 0)
  {
    assert ks[..0] == [];
  }

  lemma SomewhereStep(ks: seq<SeriesInput>, n: nat, p: NameValue)
    requires n < |ks|
    ensures PairSomewhere(ks[..n + 1], p) <==> PairSomewhere(ks[..n], p) || p in PairsIn(ks[n].labels)
  {
    hide PairsIn;
    AllPairsMembers(ks[..n + 1]);
    AllPairsMembers(ks[..n]);
    assert ks[..n + 1][..n] == ks[..n];
  }

  /** A label that no row has collects nothing. */
  lemma {:induction false} NothingCollected(ks: seq<SeriesInput>, n: nat, p: NameValue)
    requires n <= |ks| && !PairSomewhere(ks[..n], p)
    ensures IdsOf(RowsOf(ks)[..n], Pair(p.0, p.1)) == []
    decreases n
  {
    hide PairsIn, PairSomewhere, Holds, SeriesId, SeriesContent;
    if n == 0 {
      assert RowsOf(ks)[..0] == [];
    } else {
      SomewhereStep(ks, n - 1, p);
      NothingCollected(ks, n - 1, p);
      IdsOfStep(RowsOf(ks), n, Pair(p.0, p.1));
      PairIsLabel(ks[n - 1].labels, p);
    }
  }

  lemma CollectingStep(ks: seq<SeriesInput>, n: nat, before: map<NameValue, seq<nat>>, after: map<NameValue, seq<nat>>)
    requires n < |ks| && Collecting(before, ks, n)
    requires forall p :: p in after <==> p in before || p in PairsIn(ks[n].labels)
    requires forall p :: p in after ==>
      after[p] == (if p in before then before[p] else []) + (if p in PairsIn(ks[n].labels) then [RowsOf(ks)[n].id] else [])
    ensures Collecting(after, ks, n + 1)
  {
    hide PairsIn, PairSomewhere, Holds, SeriesId, SeriesContent, IdsOf;
    forall p
      ensures p in after <==> PairSomewhere(ks[..n + 1], p)
      ensures p in after ==> after[p] == IdsOf(RowsOf(ks)[..n + 1], Pair(p.0, p.1))
    {
      SomewhereStep(ks, n, p);
      IdsOfStep(RowsOf(ks), n + 1, Pair(p.0, p.1));
      PairIsLabel(ks[n].labels, p);
      if p !in before {
        NothingCollected(ks, n, p);
      }
    }
  }

  /** An identifier depends only on the series before. */
  lemma IdStays(ks: seq<SeriesInput>, n: nat)
    requires n < |ks|
    ensures SeriesId(IndexContent(SymbolsOf(ks), SeriesContent(ks).series[..n + 1], []), n) == RowsOf(ks)[n].id
    ensures SeriesContent(ks).series[..n] + [SeriesDataOf(ks, n)] == SeriesContent(ks).series[..n + 1]
  {
    hide SymbolsOf, SeriesDataOf, SeriesBlock, Head, Padded;
    assert SeriesContent(ks).series[..n + 1][..n] == SeriesContent(ks).series[..n];
  }

  lemma SeriesFits(ks: seq<SeriesInput>, n: nat)
    requires FitsFormat(ContentOf(ks)) && n < |ks|
    ensures FitsSeries(SeriesDataOf(ks, n))
  {
    hide SymbolPayload, TablePayload, IndexFile, FitsSeries, FitsPosting, SymbolsOf, SeriesDataOf, PostingsList;
    assert ContentOf(ks).series[n] == SeriesDataOf(ks, n);
  }

  /** Adds every series and collects its identifier under its labels. */
  method AddAllSeries(iw: IndexWriter, ps: seq<Prepared>, refs: map<Str, u32>, ghost ks: seq<SeriesInput>)
    returns (postings: map<NameValue, seq<nat>>, keys: seq<NameValue>)
    requires iw.Valid() && iw.stage == SeriesStage && iw.content == IndexContent(SymbolsOf(ks), [], [])
    requires AllPrepared(ps, ks) && FitsFormat(ContentOf(ks)) && RefsMap(refs, SymbolsOf(ks), |SymbolsOf(ks)|)
    modifies iw
    ensures iw.Valid() && iw.stage == PostingsStage && iw.content == SeriesContent(ks)
    ensures keys == AllPairs(ks) && Collecting(postings, ks, |ks|)
  {
    hide IndexWriter.Valid, SymbolsOf, MetasOf, FitsFormat, SeriesPayload, Collecting, SeriesId, PairsIn, RefsMap, LabelRefs;
    postings, keys := map[], [];
    CollectingStart(ks);
    assert ks[..0] == [] && SeriesContent(ks).series[..0] == [];
    for n := 0 to |ps|
      invariant iw.Valid() && iw.stage == SeriesStage
      invariant iw.content == IndexContent(SymbolsOf(ks), SeriesContent(ks).series[..n], [])
      invariant keys == AllPairs(ks[..n]) && Collecting(postings, ks, n)
    {
      var p := ps[n];
      forall k | 0 <= k < |ks[n].labels|
        ensures ks[n].labels[k].key in SymbolsOf(ks) && ks[n].labels[k].val in SymbolsOf(ks)
      {
        SymbolThere(ks, n, k);
      }
      var labelRefs := TranslateLabels(p.input.labels, refs, SymbolsOf(ks));
      SeriesFits(ks, n);
      IdStays(ks, n);
      var id := iw.AddSeries(labelRefs, p.metas);
      assert ks[..n + 1][..n] == ks[..n];
      ghost var before := postings;
      postings, keys := PushId(postings, keys, p.input.labels, id.value);
      CollectingStep(ks, n, before, postings);
    }
    assert ks[..|ks|] == ks && SeriesContent(ks).series[..|ks|] == SeriesContent(ks).series;
    var finished := iw.FinishSeries();
    NoPostingsYet(ks);
  }

  lemma NoPostingsYet(ks: seq<SeriesInput>)
    ensures IndexContent(SymbolsOf(ks), SeriesContent(ks).series, []) == SeriesContent(ks)
  {
    hide SymbolsOf, SeriesDataOf;
  }

  lemma PostingFits(ks: seq<SeriesInput>, j: nat)
    requires FitsFormat(ContentOf(ks)) && j < |PairsOf(ks)|
    ensures Words32(PostingsList(ks)[j].ids)
  {
    hide SymbolPayload, TablePayload, IndexFile, FitsSeries, SymbolsOf, SeriesContent, PostingPayload, PairsOf, IdsOf, RowsOf;
    assert ContentOf(ks).postings[j] == PostingsList(ks)[j];
    assert FitsPosting(ContentOf(ks).postings[j]);
  }

  lemma IdsAscendStepwise(rows: seq<Row>, t: Test)
    requires RowsAscend(rows)
    ensures var ids := IdsOf(rows, t); forall i :: 0 < i < |ids| ==> ids[i - 1] < ids[i]
  {
    IdsMembers(rows, t);
    var ids := IdsOf(rows, t);
    forall i | 0 < i < |ids|
      ensures ids[i - 1] < ids[i]
    {
      assert Below(ids[i - 1], ids[i]);
    }
  }

  lemma {:induction false} EntriesFit(base: seq<byte>, ps: seq<PostingData>)
    requires (forall j :: 0 <= j < |ps| ==> FitsPosting(ps[j])) && |PostingsBlock(base, ps)| < TWO64
    ensures forall e :: e in TableEntries(base, ps) ==> CountableEntry(e)
  {
    hide PostingsBlock, PostingPayload, Words32;
    TableNames(base, ps);
    forall e | e in TableEntries(base, ps)
      ensures CountableEntry(e)
    {
      var j :| 0 <= j < |ps| && TableEntries(base, ps)[j] == e;
      assert FitsPosting(ps[j]);
    }
  }

  lemma TableFits(c: IndexContent)
    requires FitsFormat(c)
    ensures forall e :: e in TableOf(c) ==> CountableEntry(e)
  {
    hide SymbolPayload, TablePayload, FitsSeries, FitsPosting, PostingsBlock, BeforePostings, TocBytes, Section, CountableEntry, TableEntries;
    assert |BeforeTable(c)| <= |IndexFile(c)|;
    EntriesFit(BeforePostings(c), c.postings);
  }

  /** Adds the posting lists in the order of their labels and ends the file. */
  method AddAllPostings(iw: IndexWriter, postings: map<NameValue, seq<nat>>, order: seq<NameValue>, ghost ks: seq<SeriesInput>)
    requires iw.Valid() && iw.stage == PostingsStage && iw.content == SeriesContent(ks)
    requires order == PairsOf(ks) && Collecting(postings, ks, |ks|) && FitsFormat(ContentOf(ks))
    modifies iw
    ensures iw.buf == IndexFile(ContentOf(ks))
  {
    hide IndexWriter.Valid, SymbolsOf, FitsFormat, PairsOf, IdsOf, SeriesContent, IndexFile, RowsOf, RowsAscend, Collecting, ContentOf,
      Words32, CountableEntry, TableOf, PostingsBlock, PostingPayload, BeforePostings, BeforeTable;
    RowsAscending(ks);
    ContentStart(ks);
    for j := 0 to |order|
      invariant iw.Valid() && iw.stage == PostingsStage
      invariant iw.content == SeriesContent(ks).(postings := PostingsList(ks)[..j])
    {
      var p := order[j];
      CollectedAt(postings, ks, j);
      PostingFits(ks, j);
      IdsAscendStepwise(RowsOf(ks), Pair(p.0, p.1));
      var r := iw.AddPostings(p.0, p.1, postings[p]);
      assert PostingsList(ks)[..j + 1] == PostingsList(ks)[..j] + [PostingsList(ks)[j]];
    }
    ContentEnd(ks, |order|);
    TableFits(ContentOf(ks));
    PendingIsTable(iw);
    var closed := iw.Close();
  }

  /** What was collected for a label is its posting list. */
  lemma CollectedAt(postings: map<NameValue, seq<nat>>, ks: seq<SeriesInput>, j: nat)
    requires Collecting(postings, ks, |ks|) && j < |PairsOf(ks)|
    ensures var p := PairsOf(ks)[j];
      p in postings && PostingsList(ks)[j] == PostingData(p.0, p.1, postings[p]) && postings[p] == IdsOf(RowsOf(ks), Pair(p.0, p.1))
  {
    hide PairsOf, IdsOf, SeriesId, SeriesContent, PairSomewhere;
    PairsMeaning(ks);
    assert ks[..|ks|] == ks && RowsOf(ks)[..|ks|] == RowsOf(ks);
    assert PairsOf(ks)[j] in PairsOf(ks);
  }

  lemma ContentEnd(ks: seq<SeriesInput>, n: nat)
    requires n == |PairsOf(ks)|
    ensures SeriesContent(ks).(postings := PostingsList(ks)[..n]) == ContentOf(ks)
  {
    hide SymbolsOf, SeriesContent, PairsOf, IdsOf, RowsOf;
    assert PostingsList(ks)[..n] == PostingsList(ks);
  }

  lemma ContentStart(ks: seq<SeriesInput>)
    ensures SeriesContent(ks).(postings := PostingsList(ks)[..0]) == SeriesContent(ks)
  {
    hide SymbolsOf, SeriesDataOf;
    assert PostingsList(ks)[..0] == [];
  }

  lemma PendingIsTable(iw: IndexWriter)
    requires iw.Valid() && iw.stage == PostingsStage
    ensures iw.pending == TableOf(iw.content)
  {
    hide TableOf, BeforeTable, IndexFile, SeriesBlock;
  }

  /** The index of some prepared series. */
  method WriteIndex(ps: seq<Prepared>, ghost ks: seq<SeriesInput>) returns (file: seq<byte>)
    requires AllPrepared(ps, ks) && FitsFormat(ContentOf(ks))
    ensures file == IndexFile(ContentOf(ks))
  {
    hide IndexWriter.Valid, MetasOf, FitsFormat, SortUnique, AllStrings, AllPairs, Collecting, IndexFile, ContentOf;
    var strings := CollectStrings(ps, ks);
    var symbols := SortUnique(Less, strings);
    SymbolsAscend(ks);
    SymbolsCountable(ks);
    var iw := new IndexWriter();
    var refs := AddSymbols(iw, symbols);
    var postings, keys := AddAllSeries(iw, ps, refs, ks);
    AddAllPostings(iw, postings, SortUnique(PairLess, keys), ks);
    file := iw.buf;
  }

  lemma SymbolsAscend(ks: seq<SeriesInput>)
    ensures Ascends(Less, SymbolsOf(ks))
  {
    hide SortUnique, AllStrings;
    LessStrictTotal();
    SortUniqueMeaning(Less, [[]] + AllStrings(ks));
  }

  lemma SymbolsCountable(ks: seq<SeriesInput>)
    requires FitsFormat(ContentOf(ks))
    ensures AllCountable(SymbolsOf(ks))
  {
    hide SymbolPayload, TablePayload, IndexFile, FitsSeries, FitsPosting, SymbolsOf, SeriesDataOf, PostingsList;
  }

  // ---- The block -------------------------------------------------------------

  /** Sizes that the block's own counters and fields can hold. */
  ghost predicate Creatable(inputs: seq<SeriesInput>) {
    && FitsBlock(Kept(inputs))
    && forall i, j :: 0 <= i < |inputs| && 0 <= j < |inputs[i].chunks| ==> |inputs[i].chunks[j].bytes| < TWO64
  }

  /** Creates a block from series in the given order. */
  method CreateFromSeries(ulid: Str, inputs: seq<SeriesInput>) returns (b: Block)
    requires Creatable(inputs)
    ensures b == CreatedBlock(ulid, inputs)
  {
    hide Kept, ContentOf, IndexFile, FitsFormat, MetasOf, ChunkFilesOf, AllInputs, MinOf, MaxOf, CountOf, FlatChunks;
    var prepared, files, totals := WriteChunks(inputs);
    ghost var ks := Kept(inputs);
    var minTime, maxTime := totals.minTime, totals.maxTime;
    if prepared == [] {
      minTime, maxTime := 0, 0;
    }
    var index := WriteIndex(prepared, ks);
    b := Block(BlockMeta(ulid, minTime, maxTime, totals.samples, |prepared|, totals.chunks, 1, [ulid]), index, files);
  }
}
