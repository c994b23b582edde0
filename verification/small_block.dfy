/** A smallest head and its block: sizes that surely fit, and a query that the two answer
    differently. */
module SmallBlocks {
  import opened Words
  import opened Wrappers
  import opened SortedSets
  import opened LabelSets
  import opened XorCode
  import opened MemSeriesModel
  import opened IndexFormat
  import opened IndexFiles
  import opened PostingAlgebra
  import opened BlockModel
  import opened HeadToBlock
  import opened Queries
  import opened HeadBlocks
  import Sorting
  import Varint
  import Crc32c
  import WalRecords

  /** One chunk and one label, of at most a hundred bytes for each of its strings. */
  predicate Small(k: SeriesInput) {
    |k.labels| == 1 && |k.labels[0].key| <= 100 && |k.labels[0].val| <= 100 && |k.chunks| == 1 && |k.chunks[0].bytes| < TWO64
  }

  // ---- Sizes -----------------------------------------------------------------

  lemma StrSize(s: Str)
    requires |s| <= 100
    ensures |WalRecords.EncStr(s)| <= 110
  {
    hide Varint.Uvarint;
    Varint.UvarintMaxLength(|s|);
  }

  lemma {:induction false} StrsSize(ss: seq<Str>)
    requires forall i :: 0 <= i < |ss| ==> |ss[i]| <= 100
    ensures |EncStrs(ss)| <= 110 * |ss|
  {
    hide WalRecords.EncStr;
    if ss != [] {
      StrSize(ss[0]);
      StrsSize(ss[1..]);
    }
  }

  lemma UniqueSize<T>(lt: (T, T) -> bool, xs: seq<T>)
    ensures |SortUnique(lt, xs)| <= |xs|
  {
  }

  lemma OneStrings(k: SeriesInput)
    requires |k.labels| == 1
    ensures AllStrings([k]) == [k.labels[0].key, k.labels[0].val]
  {
    assert [k][..0] == [];
    var none: seq<SeriesInput> := [];
    assert AllStrings(none) == [];
    assert k.labels[..0] == [];
    assert Strings(k.labels) == [k.labels[0].key, k.labels[0].val];
    assert AllStrings([k]) == AllStrings(none) + Strings(k.labels);
  }

  lemma SmallSymbols(k: SeriesInput)
    requires Small(k)
    ensures |SymbolsOf([k])| <= 3 && forall i :: 0 <= i < |SymbolsOf([k])| ==> |SymbolsOf([k])[i]| <= 100
  {
    hide SortUnique;
    OneStrings(k);
    var all := [[]] + AllStrings([k]);
    LessStrictTotal();
    SortUniqueMeaning(Less, all);
    UniqueSize(Less, all);
    forall i | 0 <= i < |SymbolsOf([k])|
      ensures |SymbolsOf([k])[i]| <= 100
    {
      assert SymbolsOf([k])[i] in all;
    }
  }

  lemma OnePairs(k: SeriesInput)
    requires |k.labels| == 1
    ensures AllPairs([k]) == [(k.labels[0].key, k.labels[0].val)]
  {
    assert [k][..0] == [];
    var none: seq<SeriesInput> := [];
    assert AllPairs(none) == [];
    assert k.labels[..0] == [];
    assert PairsIn(k.labels) == [(k.labels[0].key, k.labels[0].val)];
    assert AllPairs([k]) == AllPairs(none) + PairsIn(k.labels);
  }

  lemma SmallPairs(k: SeriesInput)
    requires Small(k)
    ensures |PairsOf([k])| <= 1 && forall i :: 0 <= i < |PairsOf([k])| ==> |PairsOf([k])[i].0| <= 100 && |PairsOf([k])[i].1| <= 100
  {
    hide SortUnique;
    OnePairs(k);
    PairLessStrictTotal();
    SortUniqueMeaning(PairLess, AllPairs([k]));
    UniqueSize(PairLess, AllPairs([k]));
    forall i | 0 <= i < |PairsOf([k])|
      ensures |PairsOf([k])[i].0| <= 100 && |PairsOf([k])[i].1| <= 100
    {
      assert PairsOf([k])[i] in AllPairs([k]);
    }
  }

  lemma SmallSeries(s: SeriesData)
    requires |s.labelRefs| == |s.metas| == 1
    ensures |SeriesPayload(s)| <= 70
  {
    hide Varint.Uvarint, Varint.ZigZag;
    var r, m := s.labelRefs[0], s.metas[0];
    Varint.UvarintMaxLength(1);
    Varint.UvarintMaxLength(r.0);
    Varint.UvarintMaxLength(r.1);
    Varint.UvarintMaxLength(Varint.ZigZag(m.minTime));
    Varint.UvarintMaxLength(ToU64(m.maxTime - m.minTime));
    Varint.UvarintMaxLength(m.ref);
    assert s.labelRefs[1..] == [] && s.metas[1..] == [];
    assert EncRefs([]) == [] && |EncRefs(s.labelRefs)| <= 20;
    assert EncMetas(m, []) == [] && |EncFirstMeta(m)| <= 30 && |EncChunks(s.metas)| <= 40;
  }

  lemma PaddedSize(b: seq<byte>, align: nat)
    requires align > 0
    ensures |Padded(b, align)| < |b| + align
  {
  }

  lemma VarSectionSize(p: seq<byte>)
    requires |p| < TWO64
    ensures |VarSection(p)| <= |p| + 14
  {
    hide Varint.Uvarint, Crc32c.Compute;
    Varint.UvarintMaxLength(|p|);
  }

  lemma OneSeriesSize(base: seq<byte>, s: SeriesData)
    requires |SeriesPayload(s)| <= 70
    ensures |SeriesBlock(base, [s])| <= |base| + 100
  {
    hide SeriesPayload, Padded, VarSection;
    assert [s][..0] == [] && SeriesBlock(base, []) == base;
    PaddedSize(base, SERIES_ALIGN);
    VarSectionSize(SeriesPayload(s));
  }

  lemma OnePostingSize(base: seq<byte>, ps: seq<PostingData>)
    requires |ps| <= 1 && forall j :: 0 <= j < |ps| ==> |ps[j].ids| <= 1
    ensures |PostingsBlock(base, ps)| <= |base| + 20
    ensures forall e :: e in TableEntries(base, ps) ==> e.offset <= |base| + 3
  {
    hide Padded;
    if |ps| == 1 {
      assert ps[..0] == [] && PostingsBlock(base, []) == base && TableEntries(base, []) == [];
      PaddedSize(base, 4);
    }
  }

  lemma OneEntrySize(es: seq<TableEntry>)
    requires |es| <= 1 && forall e :: e in es ==> |e.name| <= 100 && |e.value| <= 100 && e.offset < TWO64
    ensures |TablePayload(es)| <= 250
  {
    hide Varint.Uvarint, WalRecords.EncStr;
    if |es| == 1 {
      var e := es[0];
      assert es[1..] == [] && e in es && EncTable([]) == [];
      Varint.UvarintMaxLength(2);
      Varint.UvarintMaxLength(e.offset);
      StrSize(e.name);
      StrSize(e.value);
      assert |EncTable(es)| == |EncTableEntry(e)| <= 240;
    }
  }

  lemma {:induction false} IdsSize(rows: seq<Row>, t: Test)
    ensures |IdsOf(rows, t)| <= |rows|
  {
    hide Holds;
    if rows != [] {
      IdsSize(rows[..|rows| - 1], t);
    }
  }

  lemma OneId(k: SeriesInput, t: Test)
    ensures |IdsOf(RowsOf([k]), t)| <= 1 && Words32(IdsOf(RowsOf([k]), t))
  {
    hide Holds, SeriesId, SeriesContent;
    var rows := RowsOf([k]);
    IdsSize(rows, t);
    assert rows[..0] == [] && IdsOf([], t) == [];
  }

  lemma SmallPostings(k: SeriesInput)
    requires Small(k)
    ensures |PostingsList([k])| <= 1
    ensures forall j :: 0 <= j < |PostingsList([k])| ==> |PostingsList([k])[j].ids| <= 1 && FitsPosting(PostingsList([k])[j])
    ensures forall j :: 0 <= j < |PostingsList([k])| ==> |PostingsList([k])[j].name| <= 100 && |PostingsList([k])[j].value| <= 100
  {
    hide PairsOf, IdsOf, RowsOf, Holds;
    SmallPairs(k);
    forall j | 0 <= j < |PostingsList([k])|
      ensures |PostingsList([k])[j].ids| <= 1 && FitsPosting(PostingsList([k])[j])
    {
      OneId(k, Pair(PairsOf([k])[j].0, PairsOf([k])[j].1));
    }
  }

  lemma SmallSeriesOf(k: SeriesInput)
    requires Small(k)
    ensures |SeriesContent([k]).series| == 1 && |SeriesPayload(SeriesContent([k]).series[0])| <= 70
    ensures FitsSeries(SeriesContent([k]).series[0])
  {
    hide SymbolsOf, MetasOf, LabelRefs, SeriesPayload;
    SmallSeries(SeriesDataOf([k], 0));
  }

  /** The file of one small series stays below a kilobyte or two. */
  lemma SmallFile(c: IndexContent)
    requires |SymbolPayload(c.symbols)| <= 400
    requires |c.series| == 1 && |SeriesPayload(c.series[0])| <= 70
    requires |c.postings| <= 1
    requires forall j :: 0 <= j < |c.postings| ==> |c.postings[j].ids| <= 1 && |c.postings[j].name| <= 100 && |c.postings[j].value| <= 100
    ensures |TablePayload(TableOf(c))| <= 250 && |IndexFile(c)| <= 2000
  {
    hide SymbolPayload, SeriesPayload, Section, Padded, SeriesBlock, PostingsBlock, TableEntries, TablePayload, TocBytes;
    assert c.series == [c.series[0]];
    OneSeriesSize(Head(c.symbols), c.series[0]);
    PaddedSize(SeriesBlock(Head(c.symbols), c.series), SERIES_ALIGN);
    OnePostingSize(BeforePostings(c), c.postings);
    TableNames(BeforePostings(c), c.postings);
    forall e | e in TableOf(c)
      ensures |e.name| <= 100 && |e.value| <= 100 && e.offset < TWO64
    {
      var j :| 0 <= j < |TableOf(c)| && TableOf(c)[j] == e;
    }
    OneEntrySize(TableOf(c));
  }

  lemma SmallChunks(k: SeriesInput)
    requires Small(k)
    ensures |FlatChunks([k])| == 1 && |FlatChunks([k])[0].data| < TWO64
  {
    assert [k][..0] == [] && FlatChunks([]) == [];
  }

  /** A block of one small series fits its format. */
  lemma SmallFits(k: SeriesInput)
    requires Small(k)
    ensures FitsBlock([k])
  {
    hide SymbolsOf, PostingsList, SeriesContent, SymbolPayload, TablePayload, IndexFile, SeriesPayload, FitsPosting, FitsSeries, TableOf,
      FlatChunks;
    SmallSymbols(k);
    SymbolsSize(SymbolsOf([k]));
    SmallSeriesOf(k);
    SmallPostings(k);
    SmallFile(ContentOf([k]));
    SmallChunks(k);
  }

  lemma SymbolsSize(syms: seq<Str>)
    requires |syms| <= 3 && forall i :: 0 <= i < |syms| ==> |syms[i]| <= 100
    ensures |SymbolPayload(syms)| <= 400 && AllCountable(syms)
  {
    hide EncStrs;
    StrsSize(syms);
  }

  // ---- Queries that head and block answer differently --------------------------

  function OneSample(ls: Labels): (s: Series)
    ensures WellFormedSeries(s) && s.labels == ls && s.chunks != []
  {
    Series(1, ls, [[Sample(0, 0)]])
  }

  predicate OneShort(ls: Labels) {
    |ls| == 1 && |ls[0].key| <= 100 && |ls[0].val| <= 100
  }

  lemma OneSampleHanded(ls: Labels)
    requires OneShort(ls)
    ensures |FromHead([OneSample(ls)])| == 1 && Small(FromHead([OneSample(ls)])[0])
    ensures FromHead([OneSample(ls)])[0].labels == ls
  {
    hide WellFormedSeries, BytesOf;
    var s := OneSample(ls);
    SoundChunks(s);
    InputsLast(s.chunks);
    NoInput();
    assert s.chunks[..0] == [] && [s][..0] == [];
    var none: seq<Series> := [];
    assert FromHead(none) == [];
    OneSampleBytes();
  }

  lemma OneSampleBytes()
    ensures |BytesOf([Sample(0, 0)])| < TWO64
  {
    WellCutBounds([Sample(0, 0)]);
  }

  lemma AskedSplit(ps: Pairs, ls: Labels, name: Str, value: Str)
    requires |ls| == 1 && value != [] && name != ls[0].key && Key(name, value) == Key(ls[0].key, ls[0].val)
    requires forall p :: p in ps <==> p == (ls[0].key, ls[0].val)
    ensures !Accepts(Eq(name, value), ls) && BlockAccepts(ps, Eq(name, value), ls)
  {
    hide Key, Get, Standing;
    if Get(ls, name).Some? {
      var k := LabelThere(ls, name);
      assert false;
    }
    LabelValue(ls, 0);
    StandingIs(ps, name, value);
    assert (ls[0].key, ls[0].val) in ps;
  }

  lemma OnlyPair(k: SeriesInput)
    requires |k.labels| == 1
    ensures forall p :: p in PairsOf([k]) <==> p == (k.labels[0].key, k.labels[0].val)
  {
    hide SortUnique;
    OnePairs(k);
    PairLessStrictTotal();
    SortUniqueMeaning(PairLess, AllPairs([k]));
  }

  /** Asking a head with one series of one label for any other reading of that label's key: the
      head answers that there is none, its block finds the series. */
  lemma OnlyBlockFinds(ulid: Str, ls: Labels, name: Str, value: Str)
    requires OneShort(ls) && value != [] && name != ls[0].key && Key(name, value) == Key(ls[0].key, ls[0].val)
    ensures var live, ms := [OneSample(ls)], [Eq(name, value)];
      && Answers(live, ms, FROM_START, TO_END) == []
      && Selected(CreatedBlock(ulid, FromHead(live)), ms, FROM_START, TO_END).Ok?
      && var found := Selected(CreatedBlock(ulid, FromHead(live)), ms, FROM_START, TO_END).value;
        |found| == 1 && found[0].labels == ls
  {
    hide WellFormedSeries, FromHead, Selected, CreatedBlock, Kept, BlockAccepts, Accepts, Overlapping, InRange, FitsBlock, MetasOf, Small,
      Reached, OneSample, Key, PairsOf;
    var live, ms := [OneSample(ls)], [Eq(name, value)];
    OneSampleHanded(ls);
    var k := FromHead(live)[0];
    assert FromHead(live) == [k];
    SmallFits(k);
    OnlyPair(k);
    AskedSplit(PairsOf([k]), ls, name, value);
    KeptAll(live);
    SelectedIs(ulid, FromHead(live), ms, FROM_START, TO_END);
    AnsweredByBlock(live, ms);
    AnsweredByHead(live, ms);
  }

  /** A zero byte in a stored value: the label a = "b", zero byte, "c", asked for as "a", zero byte,
      "b" = "c". */
  lemma AnsweredDifferently(ulid: Str)
    ensures var live, ms := [OneSample([Sorting.Entry([97], [98, 0, 99])])], [Eq([97, 0, 98], [99])];
      && Answers(live, ms, FROM_START, TO_END) == []
      && Selected(CreatedBlock(ulid, FromHead(live)), ms, FROM_START, TO_END).Ok?
      && |Selected(CreatedBlock(ulid, FromHead(live)), ms, FROM_START, TO_END).value| == 1
  {
    hide WellFormedSeries, FromHead, Selected, CreatedBlock, Answers, LookupPair;
    KeyAmbiguous();
    OnlyBlockFinds(ulid, [Sorting.Entry([97], [98, 0, 99])], [97, 0, 98], [99]);
  }

  /** A zero byte in a stored name: the same two the other way round. */
  lemma NameAnsweredDifferently(ulid: Str)
    ensures var live, ms := [OneSample([Sorting.Entry([97, 0, 98], [99])])], [Eq([97], [98, 0, 99])];
      && Answers(live, ms, FROM_START, TO_END) == []
      && Selected(CreatedBlock(ulid, FromHead(live)), ms, FROM_START, TO_END).Ok?
      && |Selected(CreatedBlock(ulid, FromHead(live)), ms, FROM_START, TO_END).value| == 1
  {
    hide WellFormedSeries, FromHead, Selected, CreatedBlock, Answers, LookupPair;
    KeyAmbiguous();
    OnlyBlockFinds(ulid, [Sorting.Entry([97, 0, 98], [99])], [97], [98, 0, 99]);
  }

  function BothReadings(): (ls: Labels)
    ensures ls == [Sorting.Entry([97], [98, 0, 99]), Sorting.Entry([97, 0, 98], [99])]
  {
    var ls := [Sorting.Entry([97], [98, 0, 99]), Sorting.Entry([97, 0, 98], [99])];
    ls
  }

  /** Zero bytes alone do no harm: a series that has both labels is answered alike by head and
      block, whatever is asked. */
  lemma BothReadingsAlike(ulid: Str, live: seq<Series>)
    requires HeadBlocks.AllSound(live) && FitsBlock(FromHead(live))
    requires forall i :: 0 <= i < |live| ==> live[i].labels == BothReadings()
    ensures AlwaysAlike(ulid, live)
  {
    hide WellFormedSeries, FromHead, AlwaysAlike, FitsBlock, Plain;
    BothReadingsPlain();
    AlwaysAlikeIff(ulid, live);
  }

  lemma BothReadingsPlain()
    ensures Plain(BothReadings())
  {
    hide Get;
    var ls := BothReadings();
    assert Key([97], [98, 0, 99]) == [97, 0, 98, 0, 99] == Key([97, 0, 98], [99]);
    LabelValue(ls, 0);
    LabelValue(ls, 1);
    var key: Str := [97, 0, 98, 0, 99];
    assert key[..1] == [97] && key[2..] == [98, 0, 99] && key[..3] == [97, 0, 98] && key[4..] == [99];
    forall k, p | 0 <= k < |ls| && SplitsAt(ls[k], p)
      ensures SplitThere(ls, ls[k], p)
    {
      assert p == 1 || p == 3;
    }
  }

  lemma AnsweredByHead(live: seq<Series>, ms: seq<Matcher>)
    requires HeadBlocks.AllSound(live) && |live| == |ms| == 1 && !Accepts(ms[0], live[0].labels)
    ensures Answers(live, ms, FROM_START, TO_END) == []
  {
    hide WellFormedSeries, Accepts, Overlapping;
    assert live[..0] == [];
  }

  lemma AnsweredByBlock(live: seq<Series>, ms: seq<Matcher>)
    requires HeadBlocks.AllSound(live) && |live| == |ms| == 1 && live[0].chunks != [] && |FromHead(live)| == 1
    requires live[0].labels != [] && BlockAccepts(PairsOf(FromHead(live)), ms[0], live[0].labels)
    ensures var found := BlockAnswers(FromHead(live), 1, ms, FROM_START, TO_END);
      |found| == 1 && found[0].labels == live[0].labels
  {
    hide WellFormedSeries, FromHead, BlockAccepts, Overlapping, InRange, MetasOf, Reached, PairsOf;
    WholeRangeReaches(live[0]);
    var k := ReachedHanded(live, 0, FROM_START, TO_END);
    var ks := FromHead(live);
    assert BlockAnswers(ks, 0, ms, FROM_START, TO_END) == [];
  }
}
