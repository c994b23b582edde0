/** The head as an object: appends, commits, closing, replay and queries. */
module HeadBlocks {
  import opened Words
  import opened Wrappers
  import opened Sorting
  import opened XorCode
  import opened XorChunks
  import opened LabelSets
  import opened MemSeriesModel
  import opened SeriesStores
  import opened WalRecords
  import opened Segments
  import opened HeadStates
  import opened Queries

  datatype HeadError = NotPermitted | InvalidArgument | IoError

  // ---- Replay ----------------------------------------------------------------

  lemma InsertAllStep(st: Store, xs: seq<RefSeries>, i: nat)
    requires i < |xs|
    ensures InsertAll(st, xs[..i + 1]) == match InsertAll(st, xs[..i])
      case None => None
      case Some(m) => Inserted(m, xs[i].ref, Canonicalized(xs[i].labels))
  {
    hide Inserted;
    assert xs[..i + 1][..i] == xs[..i];
  }

  lemma {:induction false} InsertAllStops(st: Store, xs: seq<RefSeries>, i: nat)
    requires i <= |xs| && InsertAll(st, xs[..i]) == None
    ensures InsertAll(st, xs) == None
    decreases |xs|
  {
    hide Inserted;
    if i < |xs| {
      assert xs[..|xs| - 1][..i] == xs[..i];
      InsertAllStops(st, xs[..|xs| - 1], i);
    } else {
      assert xs[..i] == xs;
    }
  }

  lemma AppendAllStep(st: Store, ss: seq<RefSample>, i: nat)
    requires i < |ss|
    ensures AppendAll(st, ss[..i + 1]) == match AppendAll(st, ss[..i])
      case None => None
      case Some(m) => WithSample(m, ss[i].ref, Sample(ss[i].t, ss[i].v))
  {
    hide WithSample;
    assert ss[..i + 1][..i] == ss[..i];
  }

  lemma {:induction false} AppendAllStops(st: Store, ss: seq<RefSample>, i: nat)
    requires i <= |ss| && AppendAll(st, ss[..i]) == None
    ensures AppendAll(st, ss) == None
    decreases |ss|
  {
    hide WithSample;
    if i < |ss| {
      assert ss[..|ss| - 1][..i] == ss[..i];
      AppendAllStops(st, ss[..|ss| - 1], i);
    } else {
      assert ss[..i] == ss;
    }
  }

  method InsertSeries(store: SeriesStore, xs: seq<RefSeries>) returns (ok: bool)
    requires store.Valid()
    modifies store.Repr
    ensures store.Valid() && fresh(store.Repr - old(store.Repr))
    ensures match InsertAll(old(store.Content()), xs) case Some(st) => ok && store.Content() == st case None => !ok
  {
    hide InsertAll, Inserted;
    ghost var before := store.Content();
    assert xs[..0] == [];
    StartAll(before);
    for i := 0 to |xs|
      invariant store.Valid() && fresh(store.Repr - old(store.Repr))
      invariant InsertAll(before, xs[..i]) == Some(store.Content())
    {
      InsertAllStep(before, xs, i);
      var labels := Canonicalize(xs[i].labels);
      var inserted := store.InsertWithRef(xs[i].ref, labels);
      if !inserted {
        InsertAllStops(before, xs, i + 1);
        return false;
      }
    }
    assert xs[..|xs|] == xs;
    return true;
  }

  lemma StartAll(st: Store)
    ensures InsertAll(st, []) == AppendAll(st, []) == Some(st)
  {
  }

  method AppendSamples(store: SeriesStore, ss: seq<RefSample>) returns (ok: bool)
    requires store.Valid()
    modifies store.Repr
    ensures store.Valid() && fresh(store.Repr - old(store.Repr))
    ensures match AppendAll(old(store.Content()), ss) case Some(st) => ok && store.Content() == st case None => !ok
  {
    hide AppendAll, WithSample, SeriesAt, SeriesStore.Content, SeriesStore.Get, SeriesStore.Valid;
    ghost var before := store.Content();
    assert ss[..0] == [];
    StartAll(before);
    for i := 0 to |ss|
      invariant store.Valid() && fresh(store.Repr - old(store.Repr))
      invariant AppendAll(before, ss[..i]) == Some(store.Content())
    {
      AppendAllStep(before, ss, i);
      store.GetIsSeriesAt(ss[i].ref);
      var series := store.Get(ss[i].ref);
      UnknownSeries(store.Content(), ss[i].ref, Sample(ss[i].t, ss[i].v));
      if series == null {
        AppendAllStops(before, ss, i + 1);
        return false;
      }
      var appended := store.AppendSample(ss[i].ref, ss[i].t, ss[i].v);
      if !appended {
        AppendAllStops(before, ss, i + 1);
        return false;
      }
    }
    assert ss[..|ss|] == ss;
    return true;
  }

  lemma UnknownSeries(st: Store, ref: nat, x: Sample)
    ensures SeriesAt(st, ref).None? ==> WithSample(st, ref, x) == None
  {
  }

  /** Applies one log record to the store. */
  method ApplyRecord(store: SeriesStore, rec: seq<byte>) returns (ok: bool)
    requires store.Valid()
    modifies store.Repr
    ensures store.Valid() && fresh(store.Repr - old(store.Repr))
    ensures match ReplayRecord(old(store.Content()), rec) case Some(st) => ok && store.Content() == st case None => !ok
  {
    hide InsertAll, AppendAll, DecodeSeries, DecodeSamples;
    var kind := PeekType(rec);
    if kind == SERIES {
      var decoded := DecodeSeriesRecord(rec);
      if decoded.Err? {
        return false;
      }
      ok := InsertSeries(store, decoded.value);
    } else if kind == SAMPLES_V2 {
      var decoded := DecodeSamplesRecord(rec);
      if decoded.Err? {
        return false;
      }
      ok := AppendSamples(store, decoded.value);
    } else {
      return true;
    }
  }

  lemma ReplayNext(recs: seq<seq<byte>>, rec: seq<byte>, st: Store)
    requires Replay(recs) == Some(st)
    ensures Replay(recs + [rec]) == ReplayRecord(st, rec)
  {
    hide ReplayRecord;
    ReplaySnoc(recs, rec);
  }

  lemma {:induction false} ReplayStops(recs: seq<seq<byte>>, more: seq<seq<byte>>)
    requires Replay(recs) == None
    ensures Replay(recs + more) == None
    decreases |more|
  {
    hide ReplayRecord;
    if more == [] {
      assert recs + more == recs;
    } else {
      assert (recs + more)[..|recs + more| - 1] == recs + more[..|more| - 1];
      ReplayStops(recs, more[..|more| - 1]);
    }
  }

  /** Walks every record of the log and rebuilds the store. */
  method ReplayWal(files: seq<seq<byte>>) returns (store: SeriesStore, ok: bool)
    ensures store.Valid() && fresh(store) && fresh(store.Repr)
    ensures match Opened(files) case Some(st) => ok && store.Content() == st case None => !ok
  {
    hide Replay, ReplayRecord, ReadDir, ReadFrom, Consistent, SeriesStore.Valid, SeriesStore.Content;
    store := new SeriesStore();
    var rdr := new SegmentReader(files);
    ghost var recs: seq<seq<byte>> := [];
    NoRecordsYet(ReadDir(files));
    while true
      invariant store.Valid() && fresh(store) && fresh(store.Repr)
      invariant rdr.Valid() && fresh(rdr) && rdr !in store.Repr
      invariant rdr.reader != null ==> fresh(rdr.reader) && rdr.reader !in store.Repr
      invariant ReadDir(files) == (recs + rdr.Remaining().0, rdr.Remaining().1)
      invariant Replay(recs) == Some(store.Content())
      decreases |rdr.Remaining().0|
    {
      ghost var left := rdr.Remaining();
      var rec := rdr.NextRecord();
      if rec.Err? {
        assert recs + [] == recs;
        return store, rec.error == SegmentError.EndOfStream;
      }
      ghost var after := rdr.Remaining();
      assert recs + left.0 == recs + [rec.value] + after.0;
      ReplayNext(recs, rec.value, store.Content());
      var applied := ApplyRecord(store, rec.value);
      recs := recs + [rec.value];
      if !applied {
        ReplayStops(recs, after.0);
        return store, false;
      }
    }
  }

  lemma NoRecordsYet(r: (seq<seq<byte>>, SegmentError))
    ensures r == ([] + r.0, r.1) && Replay([]) == Some(EMPTY)
  {
    assert [] + r.0 == r.0;
  }

  // ---- Queries ---------------------------------------------------------------

  /** The chunks of a series that overlap a time range, each with its first and last time.
      Empty chunks are passed over. */
  function Overlapping(chunks: seq<seq<Sample>>, mint: i64, maxt: i64): (r: (seq<seq<byte>>, seq<ChunkMeta>))
    requires forall i :: 0 <= i < |chunks| ==> |chunks[i]| <= MAX_SAMPLES
    ensures |r.0| == |r.1|
  {
    if chunks == [] then ([], [])
    else
      var ss := chunks[|chunks| - 1];
      var (bytes, metas) := Overlapping(chunks[..|chunks| - 1], mint, maxt);
      if ss == [] then (bytes, metas)
      else
        var m := ChunkMeta(ss[0].t, ss[|ss| - 1].t, 0);
        if Overlaps(m.minTime, m.maxTime, mint, maxt) then (bytes + [BytesOf(ss)], metas + [m]) else (bytes, metas)
  }

  lemma SoundChunks(s: Series)
    requires WellFormedSeries(s)
    ensures forall i :: 0 <= i < |s.chunks| ==> 0 < |s.chunks[i]| <= MAX_SAMPLES
  {
    hide ByteSize;
    forall i | 0 <= i < |s.chunks|
      ensures 0 < |s.chunks[i]| <= MAX_SAMPLES
    {
      WellCutBounds(s.chunks[i]);
    }
  }

  /** The answer for one series: nothing when it does not match or no chunk overlaps. */
  ghost function AnswerOf(s: Series, ms: seq<Matcher>, mint: i64, maxt: i64): seq<QueryResult>
    requires WellFormedSeries(s)
  {
    SoundChunks(s);
    var (bytes, metas) := Overlapping(s.chunks, mint, maxt);
    if AcceptedByAll(ms, s.labels) && bytes != [] then [QueryResult(s.labels, bytes, metas)] else []
  }

  ghost predicate AllSound(series: seq<Series>) {
    forall i :: 0 <= i < |series| ==> WellFormedSeries(series[i])
  }

  /** The answers of all series, in order. */
  ghost function Answers(series: seq<Series>, ms: seq<Matcher>, mint: i64, maxt: i64): seq<QueryResult>
    requires AllSound(series)
  {
    if series == [] then []
    else Answers(series[..|series| - 1], ms, mint, maxt) + AnswerOf(series[|series| - 1], ms, mint, maxt)
  }

  lemma LiveSound(st: Store)
    requires Consistent(st)
    ensures AllSound(Live(st.byRef))
  {
    hide WellFormedSeries;
    assert st.byRef[..|st.byRef|] == st.byRef;
    LiveSlots(st, |st.byRef|);
    var live := Live(st.byRef);
    assert live == Live(st.byRef[..|st.byRef|]);
    forall i | 0 <= i < |live|
      ensures WellFormedSeries(live[i])
    {
      assert st.byRef[live[i].ref - 1] == Some(live[i]);
      assert SlotSound(st, live[i].ref - 1);
    }
  }

  lemma {:induction false} NothingOverlaps(chunks: seq<seq<Sample>>, mint: i64, maxt: i64)
    requires Flatten(chunks) == [] && forall i :: 0 <= i < |chunks| ==> |chunks[i]| <= MAX_SAMPLES
    ensures Overlapping(chunks, mint, maxt) == ([], [])
  {
    if chunks != [] {
      NothingOverlaps(chunks[..|chunks| - 1], mint, maxt);
    }
  }

  lemma {:induction false} FlattenAt(chunks: seq<seq<Sample>>, i: nat, j: nat)
    requires i < |chunks| && j < |chunks[i]|
    ensures |Flatten(chunks[..i])| + |chunks[i]| <= |Flatten(chunks)|
    ensures Flatten(chunks)[|Flatten(chunks[..i])| + j] == chunks[i][j]
    decreases |chunks|
  {
    if i < |chunks| - 1 {
      assert chunks[..|chunks| - 1][..i] == chunks[..i];
      FlattenAt(chunks[..|chunks| - 1], i, j);
    }
  }

  /** The first and last samples of a chunk carry its smallest and largest times. */
  lemma RangeIsTrue(s: Series, i: nat, j: nat)
    requires WellFormedSeries(s) && i < |s.chunks| && j < |s.chunks[i]|
    ensures s.chunks[i][0].t <= s.chunks[i][j].t <= s.chunks[i][|s.chunks[i]| - 1].t
  {
    hide ByteSize, Flatten;
    var n := |s.chunks[i]| - 1;
    FlattenAt(s.chunks, i, 0);
    FlattenAt(s.chunks, i, j);
    FlattenAt(s.chunks, i, n);
    var base, all := |Flatten(s.chunks[..i])|, Samples(s);
    assert all[base + 0].t <= all[base + j].t || j == 0;
    assert all[base + j].t <= all[base + n].t || j == n;
  }

  /** No sample in the range is lost: its chunk is in the answer. */
  lemma {:induction false} SampleInRangeFound(s: Series, n: nat, i: nat, j: nat, mint: i64, maxt: i64)
    requires WellFormedSeries(s) && i < n <= |s.chunks| && j < |s.chunks[i]| && mint <= s.chunks[i][j].t <= maxt
    requires forall k :: 0 <= k < |s.chunks| ==> |s.chunks[k]| <= MAX_SAMPLES
    ensures BytesOf(s.chunks[i]) in Overlapping(s.chunks[..n], mint, maxt).0
    decreases n
  {
    hide WellFormedSeries, BytesOf;
    RangeIsTrue(s, i, j);
    assert s.chunks[..n][..n - 1] == s.chunks[..n - 1];
    if i < n - 1 {
      SampleInRangeFound(s, n - 1, i, j, mint, maxt);
    }
  }

  /** Positions in rising order. */
  ghost predicate Rising(picks: seq<nat>, n: nat) {
    (forall j :: 0 <= j < |picks| ==> picks[j] < n) && forall i, j :: 0 <= i < j < |picks| ==> picks[i] < picks[j]
  }

  /** The chunk has samples, the first is not after the range and the last not before it. */
  predicate Meets(ss: seq<Sample>, mint: i64, maxt: i64) {
    ss != [] && ss[0].t <= maxt && mint <= ss[|ss| - 1].t
  }

  lemma RisingSnoc(picks: seq<nat>, n: nat)
    requires Rising(picks, n)
    ensures Rising(picks + [n], n + 1) && Rising(picks, n + 1)
    ensures forall i: nat :: i in picks + [n] <==> i in picks || i == n
  {
    assert (picks + [n])[|picks|] == n;
  }

  /** The positions of the chunks that meet a range. */
  ghost predicate MeetingAt(chunks: seq<seq<Sample>>, picks: seq<nat>, mint: i64, maxt: i64) {
    Rising(picks, |chunks|) && forall i: nat :: i in picks <==> i < |chunks| && Meets(chunks[i], mint, maxt)
  }

  /** The bytes, the first and the last time of the chunk at each position. */
  ghost predicate ListedAs(chunks: seq<seq<Sample>>, picks: seq<nat>, out: (seq<seq<byte>>, seq<ChunkMeta>)) {
    && |out.0| == |out.1| == |picks|
    && forall j :: 0 <= j < |picks| ==> picks[j] < |chunks| && ListedOne(chunks[picks[j]], out.0[j], out.1[j])
  }

  ghost predicate ListedOne(ss: seq<Sample>, bytes: seq<byte>, m: ChunkMeta) {
    0 < |ss| <= MAX_SAMPLES && bytes == BytesOf(ss) && m == ChunkMeta(ss[0].t, ss[|ss| - 1].t, 0)
  }

  /** The chunks listed for a range are exactly those that meet it, in their order, each with its
      bytes, its first and its last time. */
  lemma {:induction false} OverlappingMeaning(chunks: seq<seq<Sample>>, mint: i64, maxt: i64) returns (picks: seq<nat>)
    requires forall i :: 0 <= i < |chunks| ==> |chunks[i]| <= MAX_SAMPLES
    ensures MeetingAt(chunks, picks, mint, maxt) && ListedAs(chunks, picks, Overlapping(chunks, mint, maxt))
  {
    hide BytesOf, MeetingAt, ListedAs, Overlapping;
    if chunks == [] {
      picks := [];
      NoneListed(mint, maxt);
    } else {
      var n := |chunks| - 1;
      var before := OverlappingMeaning(chunks[..n], mint, maxt);
      OverlappingStep(chunks, n, mint, maxt);
      assert chunks[..n + 1] == chunks;
      MeetingSnoc(chunks, before, mint, maxt);
      var out, ss := Overlapping(chunks[..n], mint, maxt), chunks[n];
      if Meets(ss, mint, maxt) {
        picks := before + [n];
        ListedSnoc(chunks, before, out, BytesOf(ss), ChunkMeta(ss[0].t, ss[|ss| - 1].t, 0));
      } else {
        picks := before;
        ListedSame(chunks, before, out);
      }
    }
  }

  lemma NoneListed(mint: i64, maxt: i64)
    ensures MeetingAt([], [], mint, maxt) && ListedAs([], [], Overlapping([], mint, maxt))
  {
  }

  lemma MeetingSnoc(chunks: seq<seq<Sample>>, before: seq<nat>, mint: i64, maxt: i64)
    requires chunks != [] && MeetingAt(chunks[..|chunks| - 1], before, mint, maxt)
    ensures var n := |chunks| - 1;
      MeetingAt(chunks, if Meets(chunks[n], mint, maxt) then before + [n] else before, mint, maxt)
  {
    hide Meets;
    RisingSnoc(before, |chunks| - 1);
    assert forall i :: 0 <= i < |chunks| - 1 ==> chunks[..|chunks| - 1][i] == chunks[i];
  }

  lemma ListedSnoc(chunks: seq<seq<Sample>>, picks: seq<nat>, out: (seq<seq<byte>>, seq<ChunkMeta>), bytes: seq<byte>, m: ChunkMeta)
    requires chunks != [] && ListedAs(chunks[..|chunks| - 1], picks, out) && ListedOne(chunks[|chunks| - 1], bytes, m)
    ensures ListedAs(chunks, picks + [|chunks| - 1], (out.0 + [bytes], out.1 + [m]))
  {
    hide ListedOne;
  }

  lemma ListedSame(chunks: seq<seq<Sample>>, picks: seq<nat>, out: (seq<seq<byte>>, seq<ChunkMeta>))
    requires chunks != [] && ListedAs(chunks[..|chunks| - 1], picks, out)
    ensures ListedAs(chunks, picks, out)
  {
    hide ListedOne;
  }

  /** Every chunk an answer lists meets the queried range by its two times, and every answer lists
      a chunk. */
  lemma {:induction false} AnswersMeetRange(live: seq<Series>, ms: seq<Matcher>, mint: i64, maxt: i64)
    requires AllSound(live)
    ensures forall r :: r in Answers(live, ms, mint, maxt) ==>
      && |r.chunks| == |r.metas| > 0
      && forall k :: 0 <= k < |r.metas| ==> r.metas[k].minTime <= maxt && mint <= r.metas[k].maxTime
  {
    hide WellFormedSeries, AcceptedByAll, Overlapping, BytesOf;
    if live != [] {
      AnswersMeetRange(live[..|live| - 1], ms, mint, maxt);
      var s := live[|live| - 1];
      SeriesMeetsRange(s, ms, mint, maxt);
    }
  }

  lemma SeriesMeetsRange(s: Series, ms: seq<Matcher>, mint: i64, maxt: i64)
    requires WellFormedSeries(s)
    ensures forall r :: r in AnswerOf(s, ms, mint, maxt) ==>
      && |r.chunks| == |r.metas| > 0
      && forall k :: 0 <= k < |r.metas| ==> r.metas[k].minTime <= maxt && mint <= r.metas[k].maxTime
  {
    hide WellFormedSeries, AcceptedByAll, Overlapping, BytesOf;
    SoundChunks(s);
    var picks := OverlappingMeaning(s.chunks, mint, maxt);
    forall k | 0 <= k < |picks|
      ensures var m := Overlapping(s.chunks, mint, maxt).1[k]; m.minTime <= maxt && mint <= m.maxTime
    {
      assert picks[k] in picks;
    }
  }

  /** The series is accepted and one of its chunks meets the range. */
  ghost predicate Answering(s: Series, ms: seq<Matcher>, mint: i64, maxt: i64) {
    AcceptedByAll(ms, s.labels) && exists k :: 0 <= k < |s.chunks| && Meets(s.chunks[k], mint, maxt)
  }

  lemma AnswerOfMeaning(s: Series, ms: seq<Matcher>, mint: i64, maxt: i64)
    requires WellFormedSeries(s)
    ensures |AnswerOf(s, ms, mint, maxt)| == if Answering(s, ms, mint, maxt) then 1 else 0
    ensures Answering(s, ms, mint, maxt) ==> AnswerOf(s, ms, mint, maxt)[0].labels == s.labels
  {
    hide WellFormedSeries, AcceptedByAll, Overlapping, ListedOne, Meets;
    SoundChunks(s);
    var picks := OverlappingMeaning(s.chunks, mint, maxt);
    if picks != [] {
      assert picks[0] in picks;
    }
  }

  /** The positions of the series that answer. */
  ghost predicate AnsweringAt(live: seq<Series>, who: seq<nat>, ms: seq<Matcher>, mint: i64, maxt: i64) {
    Rising(who, |live|) && forall i: nat :: i in who <==> i < |live| && Answering(live[i], ms, mint, maxt)
  }

  ghost predicate LabelledAs(live: seq<Series>, who: seq<nat>, out: seq<QueryResult>) {
    |out| == |who| && forall j :: 0 <= j < |who| ==> who[j] < |live| && out[j].labels == live[who[j]].labels
  }

  /** A query answers with exactly the accepted series that have a chunk that meets the range, in
      their order. */
  lemma {:induction false} AnswersMeaning(live: seq<Series>, ms: seq<Matcher>, mint: i64, maxt: i64) returns (who: seq<nat>)
    requires AllSound(live)
    ensures AnsweringAt(live, who, ms, mint, maxt) && LabelledAs(live, who, Answers(live, ms, mint, maxt))
  {
    hide WellFormedSeries, AnswerOf, Answering, AnsweringAt, LabelledAs;
    if live == [] {
      who := [];
      NoneAnswer(ms, mint, maxt);
    } else {
      var n := |live| - 1;
      var before := AnswersMeaning(live[..n], ms, mint, maxt);
      AnsweringSnoc(live, before, ms, mint, maxt);
      AnswerOfMeaning(live[n], ms, mint, maxt);
      var out, more := Answers(live[..n], ms, mint, maxt), AnswerOf(live[n], ms, mint, maxt);
      if Answering(live[n], ms, mint, maxt) {
        who := before + [n];
        assert more == [more[0]];
        LabelledMore(live, before, out, more[0]);
      } else {
        who := before;
        assert out + more == out;
        LabelledSame(live, before, out);
      }
    }
  }

  lemma NoneAnswer(ms: seq<Matcher>, mint: i64, maxt: i64)
    ensures AnsweringAt([], [], ms, mint, maxt) && LabelledAs([], [], [])
  {
  }

  lemma AnsweringSnoc(live: seq<Series>, before: seq<nat>, ms: seq<Matcher>, mint: i64, maxt: i64)
    requires live != [] && AnsweringAt(live[..|live| - 1], before, ms, mint, maxt)
    ensures var n := |live| - 1;
      AnsweringAt(live, if Answering(live[n], ms, mint, maxt) then before + [n] else before, ms, mint, maxt)
  {
    hide Answering;
    RisingSnoc(before, |live| - 1);
    assert forall i :: 0 <= i < |live| - 1 ==> live[..|live| - 1][i] == live[i];
  }

  lemma LabelledMore(live: seq<Series>, before: seq<nat>, out: seq<QueryResult>, r: QueryResult)
    requires live != [] && LabelledAs(live[..|live| - 1], before, out) && r.labels == live[|live| - 1].labels
    ensures LabelledAs(live, before + [|live| - 1], out + [r])
  {
  }

  lemma LabelledSame(live: seq<Series>, before: seq<nat>, out: seq<QueryResult>)
    requires live != [] && LabelledAs(live[..|live| - 1], before, out)
    ensures LabelledAs(live, before, out)
  {
  }

  /** The first and last times of a chunk, by one walk over it: whether there is a first sample at
      all, and whether an error ended the walk. */
  method ChunkRange(bytes: seq<byte>) returns (first: bool, minTime: i64, maxTime: i64, failed: bool)
    ensures failed <==> DecodeChunk(bytes).None?
    ensures match DecodeChunk(bytes)
      case Some(ss) => (first <==> ss != []) && (first ==> minTime == ss[0].t && maxTime == ss[|ss| - 1].t)
      case None => first <==> DecRun(1, Payload(bytes)).Some?
  {
    hide DecRun, SampleCount, Payload, DecodeChunk, BytesBits, BeValue;
    WellFormedDecodes(bytes);
    var it := new XORIterator(bytes);
    NothingSeen(it);
    CountIsLength(bytes);
    minTime, maxTime := 0, 0;
    first := it.Next();
    if !first {
      failed := it.err.Some?;
      if failed {
        Stuck(0, it.numTotal, Payload(bytes));
      } else {
        AllSeen(it);
      }
      return;
    }
    minTime, maxTime := it.t, it.t;
    assert it.Seen()[0].t == minTime && it.Seen()[|it.Seen()| - 1].t == maxTime;
    var more := it.Next();
    while more
      invariant it.Valid() && it.bytes == bytes && fresh(it) && fresh(it.reader)
      invariant it.Seen() != [] && it.Seen()[0].t == minTime && it.numRead > 0
      invariant it.Seen()[|it.Seen()| - 1].t == if more then it.t else maxTime
      invariant !more ==> (it.err.Some? <==> it.numRead < it.numTotal)
      decreases it.numTotal - it.numRead, more
    {
      maxTime := it.t;
      more := it.Next();
    }
    failed := it.err.Some?;
    if failed {
      Stuck(it.numRead, it.numTotal, Payload(bytes));
      DecRunPrefix(1, it.numRead, Payload(bytes));
    } else {
      AllSeen(it);
    }
  }

  lemma CountIsLength(bytes: seq<byte>)
    ensures match DecodeChunk(bytes)
      case Some(ss) => WellFormed(bytes) && SampleCount(bytes) == |ss|
      case None => !WellFormed(bytes) && SampleCount(bytes) > 0
  {
    hide BytesBits, BeValue, DecSample, SampleCount;
    WellFormedDecodes(bytes);
    if WellFormed(bytes) {
      RunLength(SampleCount(bytes), Payload(bytes));
    }
  }

  lemma {:induction false} RunLength(n: nat, bits: Bits)
    requires DecRun(n, bits).Some?
    ensures |DecRun(n, bits).value.0| == n
  {
    hide DecSample;
    if n > 0 {
      RunLength(n - 1, bits);
    }
  }

  lemma OverlappingStep(chunks: seq<seq<Sample>>, i: nat, mint: i64, maxt: i64)
    requires i < |chunks| && forall k :: 0 <= k < |chunks| ==> |chunks[k]| <= MAX_SAMPLES
    ensures var (bytes, metas) := Overlapping(chunks[..i], mint, maxt);
      var ss := chunks[i];
      Overlapping(chunks[..i + 1], mint, maxt) ==
        if ss == [] || !Overlaps(ss[0].t, ss[|ss| - 1].t, mint, maxt) then (bytes, metas)
        else (bytes + [BytesOf(ss)], metas + [ChunkMeta(ss[0].t, ss[|ss| - 1].t, 0)])
  {
    hide BytesOf;
    assert chunks[..i + 1][..i] == chunks[..i];
  }

  lemma ChunkContents(w: Bstream.BitWriter, ss: seq<Sample>)
    requires Holds(w, History(ss)) && |ss| <= MAX_SAMPLES
    ensures w.stream == BytesOf(ss) && DecodeChunk(w.stream) == Some(ss)
    ensures |Encode(History(ss)).samples| == |ss|
  {
    hide Encode, DecodeChunk, ChunkBytes, Holds;
    HistorySamples(ss);
    HeldBytes(w, History(ss));
    BytesDecode(ss);
  }

  /** The overlapping chunks of one live series. */
  method SelectChunks(chunks: seq<XORChunk>, ghost css: seq<seq<Sample>>, mint: i64, maxt: i64)
    returns (bytes: seq<seq<byte>>, metas: seq<ChunkMeta>)
    requires |css| == |chunks| && forall i :: 0 <= i < |css| ==> |css[i]| <= MAX_SAMPLES
    requires forall i :: 0 <= i < |chunks| ==> Holds(chunks[i].writer, History(css[i]))
    ensures (bytes, metas) == Overlapping(css, mint, maxt)
  {
    hide Overlapping, BytesOf, Holds, DecodeChunk, History, Encode;
    bytes, metas := [], [];
    StartOverlapping(css, mint, maxt);
    for i := 0 to |chunks|
      invariant (bytes, metas) == Overlapping(css[..i], mint, maxt)
    {
      var xc := chunks[i];
      OverlappingStep(css, i, mint, maxt);
      ChunkContents(xc.writer, css[i]);
      var n := xc.NumSamples(History(css[i]));
      if n == 0 {
        continue;
      }
      var first, minTime, maxTime, failed := ChunkRange(xc.Bytes());
      if minTime > maxt || maxTime < mint {
        continue;
      }
      bytes := bytes + [xc.Bytes()];
      metas := metas + [ChunkMeta(minTime, maxTime, 0)];
    }
    assert css[..|css|] == css;
  }

  lemma StartOverlapping(css: seq<seq<Sample>>, mint: i64, maxt: i64)
    ensures Overlapping(css[..0], mint, maxt) == ([], [])
  {
  }

  // ---- The class -------------------------------------------------------------

  class HeadBlock {
    var wal: SegmentWriter
    var series: SeriesStore
    var pendingSeries: seq<RefSeries>
    var pendingSamples: seq<RefSample>
    var closed: bool

    ghost predicate Valid()
      reads this, wal, wal.pw, series, series.Repr
    {
      && wal.Valid() && wal.size == DEFAULT_SEGMENT_SIZE && series.Valid()
      && this !in series.Repr && wal !in series.Repr && wal.pw !in series.Repr
      && (forall x :: x in pendingSeries ==> Countable(x))
    }

    /** The head as a value. */
    ghost function State(): Head
      reads this, wal, series, series.byRef
    {
      Head(wal.past, wal.segments, series.Content(), pendingSeries, pendingSamples, closed, false)
    }

    constructor (files: seq<seq<byte>>, store: SeriesStore)
      requires store.Valid()
      ensures Valid() && fresh(wal) && fresh(wal.pw) && series == store && store.Content() == old(store.Content())
      ensures State() == Head(files, [[]], store.Content(), [], [], false, false)
    {
      wal := new SegmentWriter(files, DEFAULT_SEGMENT_SIZE);
      series := store;
      pendingSeries, pendingSamples, closed := [], [], false;
    }

    /** Opens the head of a log directory, whatever its files hold: replays it, then starts a new
        segment. */
    static method Open(files: seq<seq<byte>>) returns (r: Result<HeadBlock, HeadError>)
      ensures match Opened(files)
        case None => r == Err(IoError)
        case Some(st) => r.Ok? && r.value.Valid() && fresh(r.value) && r.value.State() == Head(files, [[]], st, [], [], false, false)
    {
      hide Opened;
      var store, ok := ReplayWal(files);
      if !ok {
        return Err(IoError);
      }
      var h := new HeadBlock(files, store);
      return Ok(h);
    }

    /** Appends one sample, creating the series on demand. */
    method Append(labels: Labels, t: i64, v: u64) returns (r: Result<nat, HeadError>)
      requires Valid() && CountableLabels(labels)
      modifies this, series, series.Repr
      ensures Valid() && wal == old(wal) && series == old(series)
      ensures State() == Next(old(State()), HeadOp.Append(labels, Sample(t, v)))
      ensures r == if old(closed) then Err(NotPermitted)
        else
          var (st, ref, _) := Created(old(series.Content()), labels);
          if WithSample(st, ref, Sample(t, v)).Some? then Ok(ref) else Err(InvalidArgument)
    {
      hide Consistent, Created, WithSample, SeriesAt, Files, Countable, CountableLabels, Opened, Committed, Step,
        SegmentWriter.Valid, SeriesStore.Content, SeriesStore.Valid;
      if closed {
        return Err(NotPermitted);
      }
      series.ContentConsistent();
      CreatedExists(series.Content(), labels);
      var s, isNew := series.GetOrCreate(labels);
      if isNew {
        NewEntry(ToU64(s.ref), labels);
        pendingSeries := pendingSeries + [RefSeries(ToU64(s.ref), labels)];
      }
      var ref := s.ref;
      var ok := series.AppendSample(ref, t, v);
      if !ok {
        return Err(InvalidArgument);
      }
      pendingSamples := pendingSamples + [RefSample(ToU64(ref), t, 0, v)];
      return Ok(ref);
    }

    /** Logs what is pending: first the new series, then the samples. */
    method Commit() returns (r: Result<(), HeadError>)
      requires Valid()
      modifies this, wal, wal.pw
      ensures Valid() && wal == old(wal) && series == old(series) && (wal.pw == old(wal.pw) || fresh(wal.pw))
      ensures State() == Next(old(State()), HeadOp.Commit)
      ensures r == if old(closed) then Err(NotPermitted) else Ok(())
      ensures closed == old(closed)
    {
      hide Consistent, Step, Files, EncodeSeries, EncodeSamples, SeriesStore.Content, SeriesStore.Valid, SegmentWriter.Valid, Countable;
      if closed {
        return Err(NotPermitted);
      }
      if pendingSeries != [] {
        var rec := EncodeSeriesRecord(pendingSeries);
        wal.Log(rec);
        pendingSeries := [];
      }
      if pendingSamples != [] {
        var rec := EncodeSamplesRecord(pendingSamples);
        wal.Log(rec);
        pendingSamples := [];
      }
      return Ok(());
    }

    /** A last commit, then the end of the log segment. */
    method Close() returns (r: Result<(), HeadError>)
      requires Valid()
      modifies this, wal, wal.pw
      ensures Valid() && r == Ok(())
      ensures State() == Next(old(State()), HeadOp.Close)
    {
      hide Consistent, Step, Files, EncodeSeries, EncodeSamples, Committed, SeriesStore.Content, SeriesStore.Valid;
      if closed {
        return Ok(());
      }
      r := Commit();
      wal.Cut();
      closed := true;
    }

    /** Every live series that the matchers accept, with its chunks that overlap the range. */
    method Select(ms: seq<Matcher>, mint: i64, maxt: i64) returns (r: Result<seq<QueryResult>, HeadError>)
      requires Valid()
      ensures AllSound(Live(series.Content().byRef))
      ensures r == if ms == [] then Err(InvalidArgument) else Ok(Answers(Live(series.Content().byRef), ms, mint, maxt))
    {
      hide Consistent, SeriesStore.Content, AcceptedByAll, Answers, AnswerOf, WellFormedSeries, Live;
      LiveSound(series.Content());
      if ms == [] {
        return Err(InvalidArgument);
      }
      var all := series.AllSeries();
      ghost var live := Live(series.Content().byRef);
      var out: seq<QueryResult> := [];
      StartAnswers(live, ms, mint, maxt);
      for i := 0 to |all|
        invariant AllSound(live[..i]) && out == Answers(live[..i], ms, mint, maxt)
      {
        AnswersStep(live, i, ms, mint, maxt);
        var answer := SelectSeries(all[i], ms, mint, maxt);
        out := out + answer;
      }
      assert live[..|live|] == live;
      return Ok(out);
    }
  }

  lemma StartAnswers(series: seq<Series>, ms: seq<Matcher>, mint: i64, maxt: i64)
    ensures AllSound(series[..0]) && Answers(series[..0], ms, mint, maxt) == []
  {
  }

  lemma AnswersStep(series: seq<Series>, i: nat, ms: seq<Matcher>, mint: i64, maxt: i64)
    requires AllSound(series) && i < |series|
    ensures AllSound(series[..i]) && AllSound(series[..i + 1]) && WellFormedSeries(series[i])
    ensures Answers(series[..i + 1], ms, mint, maxt) == Answers(series[..i], ms, mint, maxt) + AnswerOf(series[i], ms, mint, maxt)
  {
    hide AnswerOf, WellFormedSeries;
    assert series[..i + 1][..i] == series[..i];
  }

  /** One series of a query. */
  method SelectSeries(s: MemSeries, ms: seq<Matcher>, mint: i64, maxt: i64) returns (r: seq<QueryResult>)
    requires s.Valid()
    ensures r == AnswerOf(s.content, ms, mint, maxt)
  {
    hide AcceptedByAll, Overlapping, Holds, Samples, WellFormedSeries;
    SoundChunks(s.content);
    if s.numSamples == 0 {
      NoOverlap(s.content, mint, maxt);
      return [];
    }
    var accepted := LabelsMatchAll(s.labels, ms);
    if !accepted {
      return [];
    }
    var bytes, metas := SelectChunks(s.chunks, s.content.chunks, mint, maxt);
    if bytes == [] {
      return [];
    }
    return [QueryResult(s.labels, bytes, metas)];
  }

  lemma NoOverlap(s: Series, mint: i64, maxt: i64)
    requires Samples(s) == [] && forall i :: 0 <= i < |s.chunks| ==> |s.chunks[i]| <= MAX_SAMPLES
    ensures Overlapping(s.chunks, mint, maxt) == ([], [])
  {
    NothingOverlaps(s.chunks, mint, maxt);
  }

  lemma CreatedExists(st: Store, labels: Labels)
    requires Consistent(st)
    ensures SeriesAt(Created(st, labels).0, Created(st, labels).1).Some?
  {
    hide Consistent;
    CreatedKeeps(st, labels);
  }

  lemma NewEntry(ref: u64, labels: Labels)
    requires CountableLabels(labels)
    ensures Countable(RefSeries(ref, labels))
  {
  }
}
