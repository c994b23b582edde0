/** Flushing a head to a block: the block answers every query as the head does. */
module HeadToBlock {
  import opened Words
  import opened Wrappers
  import opened XorCode
  import opened XorChunks
  import opened LabelSets
  import opened MemSeriesModel
  import opened SeriesStores
  import opened Queries
  import opened HeadBlocks
  import opened PostingAlgebra
  import opened BlockModel

  predicate Short(chunks: seq<seq<Sample>>) {
    forall i :: 0 <= i < |chunks| ==> |chunks[i]| <= MAX_SAMPLES
  }

  /** The chunks of a series with their first and last times. */
  function InputsOf(chunks: seq<seq<Sample>>): seq<ChunkInput>
    requires Short(chunks)
  {
    if chunks == [] then []
    else
      var ss := chunks[|chunks| - 1];
      InputsOf(chunks[..|chunks| - 1]) + (if ss == [] then [] else [ChunkInput(ss[0].t, ss[|ss| - 1].t, BytesOf(ss))])
  }

  /** What the head hands over: every series that has a chunk, by ascending reference. */
  ghost function FromHead(live: seq<Series>): seq<SeriesInput>
    requires HeadBlocks.AllSound(live)
  {
    if live == [] then []
    else
      var s := live[|live| - 1];
      SoundChunks(s);
      FromHead(live[..|live| - 1]) + (if InputsOf(s.chunks) == [] then [] else [SeriesInput(s.labels, InputsOf(s.chunks))])
  }

  lemma KeptSnoc(ks: seq<SeriesInput>, k: SeriesInput)
    requires k.chunks != []
    ensures Kept(ks + [k]) == Kept(ks) + [k]
  {
    assert (ks + [k])[..|ks|] == ks;
  }

  lemma {:induction false} KeptAll(live: seq<Series>)
    requires HeadBlocks.AllSound(live)
    ensures Kept(FromHead(live)) == FromHead(live)
  {
    hide WellFormedSeries, InputsOf;
    if live != [] {
      var init, s := live[..|live| - 1], live[|live| - 1];
      KeptAll(init);
      SoundChunks(s);
      if InputsOf(s.chunks) == [] {
        assert FromHead(init) + [] == FromHead(init);
      } else {
        KeptSnoc(FromHead(init), SeriesInput(s.labels, InputsOf(s.chunks)));
      }
    }
  }

  /** What the head hands over for the first series stays in front. */
  lemma {:induction false} FromHeadPrefix(live: seq<Series>, m: nat)
    requires HeadBlocks.AllSound(live) && m <= |live|
    ensures HeadBlocks.AllSound(live[..m])
    ensures FromHead(live[..m]) <= FromHead(live)
    decreases |live|
  {
    hide WellFormedSeries, InputsOf;
    if m < |live| {
      assert live[..|live| - 1][..m] == live[..m];
      FromHeadPrefix(live[..|live| - 1], m);
    } else {
      assert live[..m] == live;
    }
  }

  lemma FromHeadStep(live: seq<Series>, m: nat)
    requires HeadBlocks.AllSound(live) && m < |live|
    ensures HeadBlocks.AllSound(live[..m]) && HeadBlocks.AllSound(live[..m + 1]) && Short(live[m].chunks)
    ensures FromHead(live[..m + 1]) == FromHead(live[..m]) +
      (if InputsOf(live[m].chunks) == [] then [] else [SeriesInput(live[m].labels, InputsOf(live[m].chunks))])
  {
    hide WellFormedSeries, InputsOf;
    SoundChunks(live[m]);
    assert live[..m + 1][..m] == live[..m];
  }

  predicate SameTimes(cs: seq<ChunkInput>, metas: seq<ChunkMeta>) {
    |cs| == |metas| && forall j :: 0 <= j < |cs| ==> metas[j].minTime == cs[j].minTime && metas[j].maxTime == cs[j].maxTime
  }

  predicate SameRanges(a: seq<ChunkMeta>, b: seq<ChunkMeta>) {
    |a| == |b| && forall j :: 0 <= j < |a| ==> a[j].minTime == b[j].minTime && a[j].maxTime == b[j].maxTime
  }

  /** The block picks the chunks the head picks. */
  lemma {:induction false} SameChunks(chunks: seq<seq<Sample>>, metas: seq<ChunkMeta>, mint: i64, maxt: i64)
    requires Short(chunks) && SameTimes(InputsOf(chunks), metas)
    ensures InRange(InputsOf(chunks), metas, mint, maxt).0 == Overlapping(chunks, mint, maxt).0
    ensures SameRanges(InRange(InputsOf(chunks), metas, mint, maxt).1, Overlapping(chunks, mint, maxt).1)
    decreases |chunks|
  {
    hide BytesOf, InRange, Overlapping, InputsOf;
    if chunks == [] {
      NoInput();
      NothingInRange(metas, mint, maxt);
    } else {
      var init, ss, n := chunks[..|chunks| - 1], chunks[|chunks| - 1], |metas| - 1;
      OverlappingLast(chunks, mint, maxt);
      InputsLast(chunks);
      if ss == [] {
        SameChunks(init, metas, mint, maxt);
      } else {
        SameChunks(init, metas[..n], mint, maxt);
        InRangeSnoc(InputsOf(init), ChunkInput(ss[0].t, ss[|ss| - 1].t, BytesOf(ss)), metas[..n], metas[n], mint, maxt);
        assert metas[..n] + [metas[n]] == metas;
      }
    }
  }

  lemma NoInput()
    ensures InputsOf([]) == []
  {
  }

  lemma InputsLast(chunks: seq<seq<Sample>>)
    requires Short(chunks) && chunks != []
    ensures var init, ss := chunks[..|chunks| - 1], chunks[|chunks| - 1];
      InputsOf(chunks) == if ss == [] then InputsOf(init) else InputsOf(init) + [ChunkInput(ss[0].t, ss[|ss| - 1].t, BytesOf(ss))]
  {
    hide BytesOf;
    assert InputsOf(chunks[..|chunks| - 1]) + [] == InputsOf(chunks[..|chunks| - 1]);
  }

  lemma NothingInRange(metas: seq<ChunkMeta>, mint: i64, maxt: i64)
    requires metas == []
    ensures InRange([], metas, mint, maxt) == ([], []) && Overlapping([], mint, maxt) == ([], [])
  {
  }

  lemma InRangeSnoc(cs: seq<ChunkInput>, c: ChunkInput, metas: seq<ChunkMeta>, m: ChunkMeta, mint: i64, maxt: i64)
    requires |cs| == |metas|
    ensures var (bytes, ms) := InRange(cs, metas, mint, maxt);
      InRange(cs + [c], metas + [m], mint, maxt) ==
        if Overlaps(m.minTime, m.maxTime, mint, maxt) then (bytes + [c.bytes], ms + [m]) else (bytes, ms)
  {
    assert (cs + [c])[..|cs|] == cs && (metas + [m])[..|metas|] == metas;
  }

  lemma OverlappingLast(chunks: seq<seq<Sample>>, mint: i64, maxt: i64)
    requires Short(chunks) && chunks != []
    ensures var (bytes, ms) := Overlapping(chunks[..|chunks| - 1], mint, maxt);
      var ss := chunks[|chunks| - 1];
      Overlapping(chunks, mint, maxt) ==
        if ss == [] || !Overlaps(ss[0].t, ss[|ss| - 1].t, mint, maxt) then (bytes, ms)
        else (bytes + [BytesOf(ss)], ms + [ChunkMeta(ss[0].t, ss[|ss| - 1].t, 0)])
  {
    hide BytesOf;
  }

  ghost predicate Agrees(ps: Pairs, ms: seq<Matcher>, ls: Labels) {
    PostingAlgebra.Holds(ByAll(ps, ms), ls) <==> AcceptedByAll(ms, ls)
  }

  /** The labels of all series handed over. */
  ghost function PairsFrom(live: seq<Series>): Pairs
    requires HeadBlocks.AllSound(live)
  {
    PairsOf(FromHead(live))
  }

  lemma MetasTimes(ks: seq<SeriesInput>, i: nat)
    requires i < |ks|
    ensures SameTimes(ks[i].chunks, MetasOf(ks, i))
  {
    FlatAt(ks, i);
    hide FlatChunks;
  }

  /** The series has a chunk that overlaps the range. */
  ghost predicate Reached(s: Series, mint: i64, maxt: i64)
    requires WellFormedSeries(s)
  {
    SoundChunks(s);
    Overlapping(s.chunks, mint, maxt).0 != []
  }

  lemma SameOne(ps: Pairs, s: Series, metas: seq<ChunkMeta>, ms: seq<Matcher>, mint: i64, maxt: i64)
    requires WellFormedSeries(s) && Short(s.chunks) && SameTimes(InputsOf(s.chunks), metas)
    requires Reached(s, mint, maxt) ==> Agrees(ps, ms, s.labels)
    ensures SameAnswers(BlockAnswer(ps, SeriesInput(s.labels, InputsOf(s.chunks)), metas, ms, mint, maxt), AnswerOf(s, ms, mint, maxt))
  {
    hide WellFormedSeries, InputsOf, InRange, Overlapping, PostingAlgebra.Holds, AcceptedByAll;
    SoundChunks(s);
    SameChunks(s.chunks, metas, mint, maxt);
  }

  lemma NoChunks(s: Series, ms: seq<Matcher>, mint: i64, maxt: i64)
    requires WellFormedSeries(s) && Short(s.chunks) && InputsOf(s.chunks) == []
    ensures AnswerOf(s, ms, mint, maxt) == []
  {
    hide WellFormedSeries, InputsOf, Overlapping, AcceptedByAll;
    SoundChunks(s);
    SameChunks(s.chunks, [], mint, maxt);
  }

  lemma JoinAnswers(a: seq<QueryResult>, b: seq<QueryResult>, c: seq<QueryResult>, d: seq<QueryResult>)
    requires SameAnswers(a, c) && SameAnswers(b, d)
    ensures SameAnswers(a + b, c + d)
  {
    hide SameAnswer;
  }

  lemma {:induction false} SameUpTo(live: seq<Series>, m: nat, ms: seq<Matcher>, mint: i64, maxt: i64)
    requires HeadBlocks.AllSound(live) && m <= |live|
    requires forall i :: 0 <= i < |live| && Reached(live[i], mint, maxt) ==> Agrees(PairsFrom(live), ms, live[i].labels)
    ensures HeadBlocks.AllSound(live[..m]) && |FromHead(live[..m])| <= |FromHead(live)|
    ensures SameAnswers(BlockAnswers(FromHead(live), |FromHead(live[..m])|, ms, mint, maxt), Answers(live[..m], ms, mint, maxt))
    decreases m
  {
    hide WellFormedSeries, BlockAnswer, AnswerOf, Agrees, SameAnswers, InputsOf, MetasOf, Reached, PairsOf;
    FromHeadPrefix(live, m);
    if m == 0 {
      assert live[..0] == [];
      NothingYet(FromHead(live), ms, mint, maxt);
    } else {
      SameUpTo(live, m - 1, ms, mint, maxt);
      FromHeadStep(live, m - 1);
      FromHeadPrefix(live, m);
      AnswersStep(live, m - 1, ms, mint, maxt);
      var ks, n, s := FromHead(live), |FromHead(live[..m - 1])|, live[m - 1];
      var a, c := BlockAnswers(ks, n, ms, mint, maxt), Answers(live[..m - 1], ms, mint, maxt);
      if InputsOf(s.chunks) == [] {
        NoChunks(s, ms, mint, maxt);
        assert c + [] == c;
      } else {
        assert ks[n] == SeriesInput(s.labels, InputsOf(s.chunks));
        MetasTimes(ks, n);
        SameOne(PairsOf(ks), s, MetasOf(ks, n), ms, mint, maxt);
        JoinAnswers(a, BlockAnswer(PairsOf(ks), ks[n], MetasOf(ks, n), ms, mint, maxt), c, AnswerOf(s, ms, mint, maxt));
      }
    }
  }

  lemma NothingYet(ks: seq<SeriesInput>, ms: seq<Matcher>, mint: i64, maxt: i64)
    ensures SameAnswers(BlockAnswers(ks, 0, ms, mint, maxt), []) && HeadBlocks.AllSound([]) && Answers([], ms, mint, maxt) == []
    ensures FromHead([]) == []
  {
  }

  /** The series has a label, none has an empty value, and wherever the key of one could be split
      the series has that label too. */
  ghost predicate Plain(ls: Labels) {
    ls != [] && (forall k :: 0 <= k < |ls| ==> ls[k].val != []) && Closed(ls)
  }

  lemma PlainLabelsAgree(ps: Pairs, ms: seq<Matcher>, ls: Labels)
    requires Plain(ls) && NoneEmpty(ps) && Covers(ps, ls)
    ensures Agrees(ps, ms, ls)
  {
    hide Closed, BlockAccepts, Accepts, NoneEmpty, Covers;
    AllAgreeIff(ps, ls);
  }

  // ---- What an answer tells about the matchers --------------------------------

  lemma {:induction false} BlockAnswerHolds(ks: seq<SeriesInput>, n: nat, ms: seq<Matcher>, mint: i64, maxt: i64, j: nat)
    requires n <= |ks| && j < |BlockAnswers(ks, n, ms, mint, maxt)|
    ensures PostingAlgebra.Holds(ByAll(PairsOf(ks), ms), BlockAnswers(ks, n, ms, mint, maxt)[j].labels)
    decreases n
  {
    hide PostingAlgebra.Holds, InRange, MetasOf;
    if j < |BlockAnswers(ks, n - 1, ms, mint, maxt)| {
      BlockAnswerHolds(ks, n - 1, ms, mint, maxt, j);
    }
  }

  lemma {:induction false} HeadAnswerAccepted(live: seq<Series>, ms: seq<Matcher>, mint: i64, maxt: i64, j: nat)
    requires HeadBlocks.AllSound(live) && j < |Answers(live, ms, mint, maxt)|
    ensures AcceptedByAll(ms, Answers(live, ms, mint, maxt)[j].labels)
    decreases |live|
  {
    hide AcceptedByAll, Overlapping, WellFormedSeries;
    var init := live[..|live| - 1];
    if j < |Answers(init, ms, mint, maxt)| {
      HeadAnswerAccepted(init, ms, mint, maxt, j);
    }
  }

  lemma {:induction false} HeadAnswerThere(live: seq<Series>, i: nat, ms: seq<Matcher>, mint: i64, maxt: i64) returns (j: nat)
    requires HeadBlocks.AllSound(live) && i < |live| && Reached(live[i], mint, maxt) && AcceptedByAll(ms, live[i].labels)
    ensures j < |Answers(live, ms, mint, maxt)| && Answers(live, ms, mint, maxt)[j].labels == live[i].labels
    decreases |live|
  {
    hide AcceptedByAll, Overlapping, WellFormedSeries;
    var init := live[..|live| - 1];
    if i < |init| {
      j := HeadAnswerThere(init, i, ms, mint, maxt);
    } else {
      j := |Answers(init, ms, mint, maxt)|;
    }
  }

  lemma {:induction false} BlockAnswerThere(ks: seq<SeriesInput>, n: nat, k: nat, ms: seq<Matcher>, mint: i64, maxt: i64) returns (j: nat)
    requires k < n <= |ks| && PostingAlgebra.Holds(ByAll(PairsOf(ks), ms), ks[k].labels)
    requires InRange(ks[k].chunks, MetasOf(ks, k), mint, maxt).0 != []
    ensures j < |BlockAnswers(ks, n, ms, mint, maxt)| && BlockAnswers(ks, n, ms, mint, maxt)[j].labels == ks[k].labels
    decreases n
  {
    hide PostingAlgebra.Holds, InRange, MetasOf;
    if k < n - 1 {
      j := BlockAnswerThere(ks, n - 1, k, ms, mint, maxt);
    } else {
      j := |BlockAnswers(ks, n - 1, ms, mint, maxt)|;
    }
  }

  /** A series the query reaches was handed to the block, with the chunks that overlap. */
  lemma ReachedHanded(live: seq<Series>, i: nat, mint: i64, maxt: i64) returns (k: nat)
    requires HeadBlocks.AllSound(live) && i < |live| && Reached(live[i], mint, maxt)
    ensures k < |FromHead(live)| && FromHead(live)[k].labels == live[i].labels
    ensures InRange(FromHead(live)[k].chunks, MetasOf(FromHead(live), k), mint, maxt).0 != []
  {
    hide WellFormedSeries, InputsOf, MetasOf, InRange, Overlapping;
    SoundChunks(live[i]);
    FromHeadStep(live, i);
    FromHeadPrefix(live, i);
    FromHeadPrefix(live, i + 1);
    k := |FromHead(live[..i])|;
    if InputsOf(live[i].chunks) == [] {
      SameChunks(live[i].chunks, [], mint, maxt);
      NothingInRange([], mint, maxt);
      assert false;
    }
    assert FromHead(live)[k] == SeriesInput(live[i].labels, InputsOf(live[i].chunks));
    MetasTimes(FromHead(live), k);
    SameChunks(live[i].chunks, MetasOf(FromHead(live), k), mint, maxt);
  }

  /** Equal answers: no reached series is accepted by one reading and refused by the other. */
  lemma SameAnswersAgree(live: seq<Series>, i: nat, ms: seq<Matcher>, mint: i64, maxt: i64)
    requires HeadBlocks.AllSound(live) && i < |live| && Reached(live[i], mint, maxt)
    requires SameAnswers(BlockAnswers(FromHead(live), |FromHead(live)|, ms, mint, maxt), Answers(live, ms, mint, maxt))
    ensures Agrees(PairsFrom(live), ms, live[i].labels)
  {
    hide WellFormedSeries, FromHead, BlockAnswers, Answers, MetasOf, InRange, Reached, AcceptedByAll, PostingAlgebra.Holds;
    var ks, n := FromHead(live), |FromHead(live)|;
    var k := ReachedHanded(live, i, mint, maxt);
    if AcceptedByAll(ms, live[i].labels) {
      var j := HeadAnswerThere(live, i, ms, mint, maxt);
      BlockAnswerHolds(ks, n, ms, mint, maxt, j);
    }
    if PostingAlgebra.Holds(ByAll(PairsOf(ks), ms), live[i].labels) {
      var j := BlockAnswerThere(ks, n, k, ms, mint, maxt);
      HeadAnswerAccepted(live, ms, mint, maxt, j);
    }
  }

  // ---- When the block answers as the head ------------------------------------

  ghost predicate AgreesWhereReached(live: seq<Series>, ms: seq<Matcher>, mint: i64, maxt: i64)
    requires HeadBlocks.AllSound(live)
  {
    forall i :: 0 <= i < |live| && Reached(live[i], mint, maxt) ==> Agrees(PairsFrom(live), ms, live[i].labels)
  }

  /** For one query: the block answers it as the head does exactly when on every series with a
      chunk in the range the block's reading of the matchers and the head's agree. */
  lemma AnswersAgreeIff(ulid: Str, live: seq<Series>, ms: seq<Matcher>, mint: i64, maxt: i64)
    requires HeadBlocks.AllSound(live) && FitsBlock(FromHead(live))
    requires ms != []
    ensures var r := Selected(CreatedBlock(ulid, FromHead(live)), ms, mint, maxt);
      r.Ok? && (SameAnswers(r.value, Answers(live, ms, mint, maxt)) <==> AgreesWhereReached(live, ms, mint, maxt))
  {
    hide FitsBlock, FromHead, Kept, Selected, CreatedBlock, BlockAnswers, Answers, SameAnswers, Agrees, Reached,
      WellFormedSeries;
    KeptAll(live);
    SelectedIs(ulid, FromHead(live), ms, mint, maxt);
    if AgreesWhereReached(live, ms, mint, maxt) {
      SameUpTo(live, |live|, ms, mint, maxt);
      assert live[..|live|] == live;
    }
    if SameAnswers(BlockAnswers(FromHead(live), |FromHead(live)|, ms, mint, maxt), Answers(live, ms, mint, maxt)) {
      forall i | 0 <= i < |live| && Reached(live[i], mint, maxt)
        ensures Agrees(PairsFrom(live), ms, live[i].labels)
      {
        SameAnswersAgree(live, i, ms, mint, maxt);
      }
    }
  }

  ghost predicate AnsweredAlike(ulid: Str, live: seq<Series>, ms: seq<Matcher>, mint: i64, maxt: i64)
    requires HeadBlocks.AllSound(live)
  {
    var r := Selected(CreatedBlock(ulid, FromHead(live)), ms, mint, maxt);
    r.Ok? && SameAnswers(r.value, Answers(live, ms, mint, maxt))
  }

  ghost predicate AlwaysAlike(ulid: Str, live: seq<Series>)
    requires HeadBlocks.AllSound(live)
  {
    forall ms, mint, maxt :: ms != [] ==> AnsweredAlike(ulid, live, ms, mint, maxt)
  }

  const FROM_START: i64 := -0x8000_0000_0000_0000
  const TO_END: i64 := 0x7FFF_FFFF_FFFF_FFFF

  lemma WholeRangeReaches(s: Series)
    requires WellFormedSeries(s) && s.chunks != []
    ensures Reached(s, FROM_START, TO_END)
  {
    hide WellFormedSeries;
    SoundChunks(s);
    OverlappingLast(s.chunks, FROM_START, TO_END);
  }

  /** A query that tells a series that is not plain from what the block finds. */
  lemma TellingQuery(ps: Pairs, ls: Labels) returns (m: Matcher)
    requires !Plain(ls)
    ensures !Agrees(ps, [m], ls)
  {
    hide Closed, BlockAccepts, Accepts, SplitThere, SplitsAt;
    if ls == [] {
      m := NothingTells(ls);
    } else if k :| 0 <= k < |ls| && ls[k].val == [] {
      m := EmptyTells(ps, ls, k);
    } else {
      var k, p := FirstSplit(ls);
      m := SplitTells(ps, ls, k, p);
    }
    assert BlockAccepts(ps, [m][0], ls) <==> BlockAccepts(ps, m, ls);
    assert Accepts([m][0], ls) <==> Accepts(m, ls);
  }

  lemma NothingTells(ls: Labels) returns (m: Matcher)
    requires ls == []
    ensures Accepts(m, ls)
  {
    m := Eq([97], []);
  }

  lemma EmptyTells(ps: Pairs, ls: Labels, k: nat) returns (m: Matcher)
    requires k < |ls| && ls[k].val == []
    ensures Accepts(m, ls) && !BlockAccepts(ps, m, ls)
  {
    m := Eq(ls[k].key, []);
    LabelValue(ls, k);
  }

  // ---- What was handed over --------------------------------------------------

  /** Every input comes from a series with a chunk. */
  lemma {:induction false} FromWhom(live: seq<Series>, k: nat) returns (i: nat)
    requires HeadBlocks.AllSound(live) && k < |FromHead(live)|
    ensures i < |live| && live[i].chunks != [] && FromHead(live)[k].labels == live[i].labels
    decreases |live|
  {
    hide WellFormedSeries, InputsOf;
    var init, s := live[..|live| - 1], live[|live| - 1];
    SoundChunks(s);
    if k < |FromHead(init)| {
      i := FromWhom(init, k);
    } else {
      i := |live| - 1;
      if s.chunks == [] {
        NoInput();
      }
    }
  }

  /** Where every series with a chunk has only non-empty values, so do the pairs of the block. */
  lemma PairsFilled(live: seq<Series>)
    requires HeadBlocks.AllSound(live)
    requires forall i :: 0 <= i < |live| && live[i].chunks != [] ==> Plain(live[i].labels)
    ensures NoneEmpty(PairsFrom(live))
  {
    hide WellFormedSeries, FromHead, Closed, PairsOf;
    var ks, ps := FromHead(live), PairsFrom(live);
    PairsMeaning(ks);
    forall j | 0 <= j < |ps|
      ensures ps[j].1 != []
    {
      assert ps[j] in ps;
      var i, k :| 0 <= i < |ks| && 0 <= k < |ks[i].labels| && ps[j] == (ks[i].labels[k].key, ks[i].labels[k].val);
      var w := FromWhom(live, i);
      assert Plain(live[w].labels);
    }
  }

  /** The pairs of the block cover every series a query reaches. */
  lemma PairsCover(live: seq<Series>, i: nat, mint: i64, maxt: i64)
    requires HeadBlocks.AllSound(live) && i < |live| && Reached(live[i], mint, maxt)
    ensures Covers(PairsFrom(live), live[i].labels)
  {
    hide WellFormedSeries, FromHead, Reached, MetasOf, InRange, PairsOf;
    var ks, ls := FromHead(live), live[i].labels;
    var w := ReachedHanded(live, i, mint, maxt);
    PairsMeaning(ks);
    forall k | 0 <= k < |ls|
      ensures (ls[k].key, ls[k].val) in PairsFrom(live)
    {
      assert ks[w].labels[k] == ls[k];
      assert PairSomewhere(ks, (ls[k].key, ls[k].val));
    }
  }

  /** For all queries: the block is as good as the head exactly when every series with a chunk has
      a label, no empty value, and every label that a zero byte in the key of one of its labels
      could be taken to begin. */
  lemma AlwaysAlikeIff(ulid: Str, live: seq<Series>)
    requires HeadBlocks.AllSound(live) && FitsBlock(FromHead(live))
    ensures AlwaysAlike(ulid, live) <==> forall i :: 0 <= i < |live| && live[i].chunks != [] ==> Plain(live[i].labels)
  {
    hide FitsBlock, FromHead, Selected, CreatedBlock, Answers, SameAnswers, Agrees, Reached, WellFormedSeries, Plain, MetasOf, InRange,
      PairsFrom;
    if forall i :: 0 <= i < |live| && live[i].chunks != [] ==> Plain(live[i].labels) {
      forall ms, mint, maxt | ms != []
        ensures AnsweredAlike(ulid, live, ms, mint, maxt)
      {
        PlainAlike(ulid, live, ms, mint, maxt);
      }
    }
    if AlwaysAlike(ulid, live) {
      forall i | 0 <= i < |live| && live[i].chunks != []
        ensures Plain(live[i].labels)
      {
        AlikeIsPlain(ulid, live, i);
      }
    }
  }

  lemma PlainAlike(ulid: Str, live: seq<Series>, ms: seq<Matcher>, mint: i64, maxt: i64)
    requires HeadBlocks.AllSound(live) && FitsBlock(FromHead(live))
    requires forall i :: 0 <= i < |live| && live[i].chunks != [] ==> Plain(live[i].labels)
    requires ms != []
    ensures AnsweredAlike(ulid, live, ms, mint, maxt)
  {
    hide FitsBlock, FromHead, Selected, CreatedBlock, Answers, SameAnswers, Agrees, WellFormedSeries, Plain, MetasOf, InRange, PairsFrom,
      Covers, NoneEmpty, Reached;
    PairsFilled(live);
    forall i | 0 <= i < |live| && Reached(live[i], mint, maxt)
      ensures Agrees(PairsFrom(live), ms, live[i].labels)
    {
      ReachedHasChunks(live[i], mint, maxt);
      PairsCover(live, i, mint, maxt);
      PlainLabelsAgree(PairsFrom(live), ms, live[i].labels);
    }
    AnswersAgreeIff(ulid, live, ms, mint, maxt);
  }

  lemma ReachedHasChunks(s: Series, mint: i64, maxt: i64)
    requires WellFormedSeries(s) && Reached(s, mint, maxt)
    ensures s.chunks != []
  {
    hide WellFormedSeries;
  }

  lemma AlikeIsPlain(ulid: Str, live: seq<Series>, i: nat)
    requires HeadBlocks.AllSound(live) && FitsBlock(FromHead(live))
    requires AlwaysAlike(ulid, live) && i < |live| && live[i].chunks != []
    ensures Plain(live[i].labels)
  {
    hide FitsBlock, FromHead, Selected, CreatedBlock, Answers, SameAnswers, Agrees, Reached, WellFormedSeries, Plain, MetasOf, InRange,
      PairsFrom;
    WholeRangeReaches(live[i]);
    if !Plain(live[i].labels) {
      var m := TellingQuery(PairsFrom(live), live[i].labels);
      assert AnsweredAlike(ulid, live, [m], FROM_START, TO_END);
      AnswersAgreeIff(ulid, live, [m], FROM_START, TO_END);
    }
  }

  /** Head-to-block refinement: the block made from a head answers every matcher list and time
      range with the same label sets, chunk bytes and time ranges in the same order, for plain
      series. */
  lemma BlockAnswersAsHead(ulid: Str, st: Store, ms: seq<Matcher>, mint: i64, maxt: i64)
    requires Consistent(st) && HeadBlocks.AllSound(Live(st.byRef))
    requires FitsBlock(FromHead(Live(st.byRef)))
    requires forall i :: 0 <= i < |Live(st.byRef)| ==> Plain(Live(st.byRef)[i].labels)
    requires ms != []
    ensures var r := Selected(CreatedBlock(ulid, FromHead(Live(st.byRef))), ms, mint, maxt);
      r.Ok? && SameAnswers(r.value, Answers(Live(st.byRef), ms, mint, maxt))
  {
    hide FitsBlock, FromHead, Selected, CreatedBlock, Answers, SameAnswers, Live, Plain, WellFormedSeries, Consistent;
    PlainAlike(ulid, Live(st.byRef), ms, mint, maxt);
  }
}
