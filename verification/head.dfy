/** The head block: in-memory series backed by the write-ahead log. */
module HeadStates {
  import opened Words
  import opened Wrappers
  import opened Sorting
  import opened XorCode
  import opened LabelSets
  import opened MemSeriesModel
  import opened SeriesStores
  import opened WalRecords
  import opened Segments
  import P = Pages

  // ---- Replay ----------------------------------------------------------------

  function InsertAll(st: Store, xs: seq<RefSeries>): Option<Store> {
    if xs == [] then Some(st)
    else match InsertAll(st, xs[..|xs| - 1])
      case None => None
      case Some(m) => var x := xs[|xs| - 1]; Inserted(m, x.ref, Canonicalized(x.labels))
  }

  function AppendAll(st: Store, ss: seq<RefSample>): Option<Store> {
    if ss == [] then Some(st)
    else match AppendAll(st, ss[..|ss| - 1])
      case None => None
      case Some(m) => var s := ss[|ss| - 1]; WithSample(m, s.ref, Sample(s.t, s.v))
  }

  /** One record of the log. Records of other kinds are skipped. */
  function ReplayRecord(st: Store, rec: Bytes): Option<Store> {
    if PeekType(rec) == SERIES then
      match DecodeSeries(rec) case Ok(xs) => InsertAll(st, xs) case Err(_) => None
    else if PeekType(rec) == SAMPLES_V2 then
      match DecodeSamples(rec) case Ok(ss) => AppendAll(st, ss) case Err(_) => None
    else Some(st)
  }

  function Replay(recs: seq<Bytes>): Option<Store> {
    if recs == [] then Some(EMPTY)
    else match Replay(recs[..|recs| - 1]) case None => None case Some(m) => ReplayRecord(m, recs[|recs| - 1])
  }

  /** The store a directory of segments opens to, if it can be opened. */
  function Opened(files: seq<Bytes>): Option<Store> {
    var (recs, e) := ReadDir(files);
    if e == SegmentError.EndOfStream then Replay(recs) else None
  }

  // ---- The head as a state machine -------------------------------------------

  /** The files found when the log was opened, the segments filled since, the store, and what is
      not logged yet. A head whose log could not be opened anew is lost. */
  datatype Head = Head(past: seq<Bytes>, segs: seq<Segment>, store: Store, newSeries: seq<RefSeries>, newSamples: seq<RefSample>,
                       closed: bool, lost: bool)

  /** A crash leaves the first `c` bytes of the last segment, and is followed by a start. */
  datatype HeadOp = Append(labels: Labels, x: Sample) | Commit | Close | Reopen | Crash(c: nat)

  const FRESH := Head([], [[]], EMPTY, [], [], false, false)

  /** The log directory. */
  function Dir(h: Head): seq<Bytes> {
    h.past + Files(h.segs)
  }

  /** Every record that was logged and not lost in a crash. */
  function LogOf(h: Head): seq<Bytes> {
    ReadDir(h.past).0 + AllBodies(h.segs)
  }

  function Least(a: nat, b: nat): nat {
    if a < b then a else b
  }

  /** The log directory after a crash. */
  function CutDir(h: Head, c: nat): seq<Bytes>
    requires h.segs != []
  {
    h.past + CrashFiles(h.segs, Least(c, |P.Written(h.segs[|h.segs| - 1])|))
  }

  function Appending(h: Head, labels: Labels, x: Sample): Head {
    var (st, ref, isNew) := Created(h.store, labels);
    var newSeries := if isNew then h.newSeries + [RefSeries(ToU64(ref), labels)] else h.newSeries;
    match WithSample(st, ref, x)
    case None => h.(store := st, newSeries := newSeries)
    case Some(st') => h.(store := st', newSeries := newSeries, newSamples := h.newSamples + [RefSample(ToU64(ref), x.t, 0, x.v)])
  }

  function Logged(hs: seq<Segment>, rec: Bytes): (r: seq<Segment>)
    requires hs != []
    ensures r != []
  {
    Step(hs, Record(rec), DEFAULT_SEGMENT_SIZE)
  }

  function Committed(h: Head): (r: Head)
    requires h.segs != []
    ensures r.segs != [] && r.newSeries == [] && r.newSamples == []
    ensures r.past == h.past && r.store == h.store && r.closed == h.closed && r.lost == h.lost
  {
    var a := if h.newSeries != [] then Logged(h.segs, EncodeSeries(h.newSeries)) else h.segs;
    var b := if h.newSamples != [] then Logged(a, EncodeSamples(h.newSamples)) else a;
    h.(segs := b, newSeries := [], newSamples := [])
  }

  /** Starting on a log directory. */
  function Restarted(h: Head, files: seq<Bytes>): (r: Head)
    requires h.segs != []
    ensures r.segs != []
  {
    match Opened(files)
    case None => h.(lost := true)
    case Some(st) => Head(files, [[]], st, [], [], false, false)
  }

  /** One call. Every call on a closed head but a start fails and changes nothing. */
  function Next(h: Head, op: HeadOp): (r: Head)
    requires h.segs != []
    ensures r.segs != []
  {
    if h.lost then h
    else match op
      case Append(labels, x) => if h.closed then h else Appending(h, labels, x)
      case Commit => if h.closed then h else Committed(h)
      case Close =>
        if h.closed then h
        else var c := Committed(h); c.(segs := Step(c.segs, Cut, DEFAULT_SEGMENT_SIZE), closed := true)
      case Reopen => Restarted(h, Dir(h))
      case Crash(c) => Restarted(h, CutDir(h, c))
  }

  /** The machine's own limits: sizes and references fit 64 bits. */
  predicate Possible(h: Head, op: HeadOp) {
    op.Append? ==> h.store.nextRef < TWO64 && CountableLabels(op.labels)
  }

  predicate CountableLabels(ls: seq<Label>) {
    |ls| < TWO64 && forall l :: l in ls ==> |l.key| < TWO64 && |l.val| < TWO64
  }

  function RunHead(ops: seq<HeadOp>): (r: Head)
    ensures r.segs != []
  {
    if ops == [] then FRESH else Next(RunHead(ops[..|ops| - 1]), ops[|ops| - 1])
  }

  // ---- The invariant ---------------------------------------------------------

  /** Replaying what is on disk and then what is pending gives the store. */
  ghost predicate Backed(base: Option<Store>, newSeries: seq<RefSeries>, newSamples: seq<RefSample>, store: Store) {
    && base.Some? && Consistent(base.value)
    && var m := InsertAll(base.value, newSeries);
      m.Some? && AppendAll(m.value, newSamples) == Some(store)
  }

  ghost predicate Invariant(h: Head) {
    && h.segs != [] && Consistent(h.store) && ReadDir(h.past).1 == SegmentError.EndOfStream
    && (forall x :: x in h.newSeries ==> Countable(x))
    && Backed(Replay(LogOf(h)), h.newSeries, h.newSamples, h.store)
    && (h.closed ==> h.newSeries == [] && h.newSamples == [])
  }

  lemma FreshInvariant()
    ensures Invariant(FRESH)
  {
    EmptySegment();
    EmptyConsistent();
  }

  lemma {:induction false} InsertAllKeeps(st: Store, xs: seq<RefSeries>)
    requires Consistent(st)
    ensures InsertAll(st, xs).Some? ==> Consistent(InsertAll(st, xs).value)
  {
    hide Consistent, Inserted;
    if xs != [] && InsertAll(st, xs[..|xs| - 1]).Some? {
      InsertAllKeeps(st, xs[..|xs| - 1]);
      var x := xs[|xs| - 1];
      InsertedKeeps(InsertAll(st, xs[..|xs| - 1]).value, x.ref, Canonicalized(x.labels));
    }
  }

  /** Samples create no series. */
  lemma {:induction false} AppendAllKeeps(st: Store, ss: seq<RefSample>)
    requires Consistent(st)
    ensures AppendAll(st, ss).Some? ==>
      && Consistent(AppendAll(st, ss).value)
      && AppendAll(st, ss).value.byLabels == st.byLabels && AppendAll(st, ss).value.nextRef == st.nextRef
      && forall r: nat :: SeriesAt(AppendAll(st, ss).value, r).None? <==> SeriesAt(st, r).None?
  {
    hide Consistent, SeriesAt, WithSample;
    if ss != [] && AppendAll(st, ss[..|ss| - 1]).Some? {
      AppendAllKeeps(st, ss[..|ss| - 1]);
      var m, s := AppendAll(st, ss[..|ss| - 1]).value, ss[|ss| - 1];
      WithSampleKeeps(m, s.ref, Sample(s.t, s.v));
      WithSampleIndexes(m, s.ref, Sample(s.t, s.v));
    }
  }

  lemma WithSampleIndexes(st: Store, ref: nat, x: Sample)
    ensures WithSample(st, ref, x).Some? ==>
      && WithSample(st, ref, x).value.byLabels == st.byLabels && WithSample(st, ref, x).value.nextRef == st.nextRef
      && SeriesAt(st, ref).Some?
  {
    hide Appended, Refuses;
  }

  /** A series created after samples were taken could as well have been there before them. */
  lemma {:induction false} AppendAllAfterPlaced(st: Store, ss: seq<RefSample>, ref: nat, labels: Labels)
    requires Consistent(st) && ref > 0 && SeriesAt(st, ref).None? && AppendAll(st, ss).Some?
    ensures AppendAll(Placed(st, ref, labels), ss) == Some(Placed(AppendAll(st, ss).value, ref, labels))
  {
    hide Consistent, SeriesAt, WithSample, Placed;
    if ss != [] {
      var init, s := ss[..|ss| - 1], ss[|ss| - 1];
      AppendAllKeeps(st, init);
      AppendAllAfterPlaced(st, init, ref, labels);
      PlaceAppendCommute(AppendAll(st, init).value, ref, labels, s.ref, Sample(s.t, s.v));
    }
  }

  lemma InsertAllSnoc(st: Store, xs: seq<RefSeries>, x: RefSeries)
    requires InsertAll(st, xs).Some?
    ensures InsertAll(st, xs + [x]) == Inserted(InsertAll(st, xs).value, x.ref, Canonicalized(x.labels))
  {
    hide Inserted;
    assert (xs + [x])[..|xs|] == xs;
  }

  lemma AppendAllSnoc(st: Store, ss: seq<RefSample>, s: RefSample)
    requires AppendAll(st, ss).Some?
    ensures AppendAll(st, ss + [s]) == WithSample(AppendAll(st, ss).value, s.ref, Sample(s.t, s.v))
  {
    hide WithSample;
    assert (ss + [s])[..|ss|] == ss;
  }

  /** A new series joins the pending ones, in front of the pending samples. */
  lemma BackedNewSeries(base: Option<Store>, ns: seq<RefSeries>, ss: seq<RefSample>, store: Store, ref: u64, labels: Labels)
    requires Backed(base, ns, ss, store) && Consistent(store)
    requires ref > 0 && SeriesAt(store, ref).None? && labels !in store.byLabels
    ensures Backed(base, ns + [RefSeries(ref, labels)], ss, Placed(store, ref, labels))
  {
    hide Consistent, SeriesAt, Placed;
    var m := InsertAll(base.value, ns).value;
    InsertAllKeeps(base.value, ns);
    AppendAllKeeps(m, ss);
    InsertAllSnoc(base.value, ns, RefSeries(ref, labels));
    CanonicalStays(labels);
    AppendAllAfterPlaced(m, ss, ref, labels);
  }

  lemma BackedNewSample(base: Option<Store>, ns: seq<RefSeries>, ss: seq<RefSample>, store: Store, s: RefSample)
    requires Backed(base, ns, ss, store) && WithSample(store, s.ref, Sample(s.t, s.v)).Some?
    ensures Backed(base, ns, ss + [s], WithSample(store, s.ref, Sample(s.t, s.v)).value)
  {
    hide Consistent, WithSample;
    AppendAllSnoc(InsertAll(base.value, ns).value, ss, s);
  }

  lemma CreatedRef(st: Store, labels: Labels)
    requires Consistent(st)
    ensures 0 < Created(st, labels).1 <= st.nextRef
  {
    hide WellFormedSeries;
  }

  lemma AppendingKeeps(h: Head, labels: Labels, x: Sample)
    requires Invariant(h) && !h.closed && Possible(h, HeadOp.Append(labels, x))
    ensures Invariant(Appending(h, labels, x))
  {
    hide Consistent, SeriesAt, WithSample, Placed, Backed, Replay, AllBodies, ReadDir;
    var base := Replay(LogOf(h));
    var (st, ref, isNew) := Created(h.store, labels);
    CreatedKeeps(h.store, labels);
    CreatedRef(h.store, labels);
    var ns := if isNew then h.newSeries + [RefSeries(ref, labels)] else h.newSeries;
    if isNew {
      BackedNewSeries(base, h.newSeries, h.newSamples, h.store, ref, labels);
    }
    WithSampleKeeps(st, ref, x);
    if WithSample(st, ref, x).Some? {
      BackedNewSample(base, ns, h.newSamples, st, RefSample(ref, x.t, 0, x.v));
    }
  }

  lemma ReplaySnoc(recs: seq<Bytes>, rec: Bytes)
    requires Replay(recs).Some?
    ensures Replay(recs + [rec]) == ReplayRecord(Replay(recs).value, rec)
  {
    hide ReplayRecord;
    assert (recs + [rec])[..|recs|] == recs;
  }

  lemma SeriesRecordReplays(st: Store, xs: seq<RefSeries>)
    requires forall x :: x in xs ==> Countable(x)
    ensures ReplayRecord(st, EncodeSeries(xs)) == InsertAll(st, xs)
  {
    hide DecodeSeries, EncEntries;
    SeriesRoundTrip(xs);
  }

  lemma SamplesRecordReplays(st: Store, ss: seq<RefSample>)
    ensures ReplayRecord(st, EncodeSamples(ss)) == AppendAll(st, ss)
  {
    hide DecodeSamples, EncRest, EncFirst;
    SamplesRoundTrip(ss);
  }

  /** A record more in the log. */
  lemma LoggedMore(h: Head, rec: Bytes)
    requires h.segs != []
    ensures LogOf(h.(segs := Logged(h.segs, rec))) == LogOf(h) + [rec]
  {
    hide AllBodies, Step, ReadDir;
    StepBodies(h.segs, Record(rec), DEFAULT_SEGMENT_SIZE);
    assert ReadDir(h.past).0 + (AllBodies(h.segs) + [rec]) == LogOf(h) + [rec];
  }

  /** What a commit adds to the log. */
  function CommitRecords(h: Head): seq<Bytes> {
    (if h.newSeries != [] then [EncodeSeries(h.newSeries)] else [])
    + (if h.newSamples != [] then [EncodeSamples(h.newSamples)] else [])
  }

  lemma CommittedLog(h: Head)
    requires h.segs != []
    ensures LogOf(Committed(h)) == LogOf(h) + CommitRecords(h)
  {
    hide AllBodies, Step, ReadDir, EncodeSeries, EncodeSamples, LogOf, Logged;
    var a := if h.newSeries != [] then h.(segs := Logged(h.segs, EncodeSeries(h.newSeries))) else h;
    if h.newSeries != [] {
      LoggedMore(h, EncodeSeries(h.newSeries));
    }
    if h.newSamples != [] {
      LoggedMore(a, EncodeSamples(h.newSamples));
    }
    var b := if h.newSamples != [] then a.(segs := Logged(a.segs, EncodeSamples(h.newSamples))) else a;
    SameLog(b, Committed(h));
    assert LogOf(h) + [] == LogOf(h);
  }

  lemma SameLog(a: Head, b: Head)
    requires a.past == b.past && a.segs == b.segs
    ensures LogOf(a) == LogOf(b)
  {
  }

  /** After the pending series, and then the pending samples, are logged, replay gives the store. */
  lemma CommittedKeeps(h: Head)
    requires Invariant(h)
    ensures Invariant(Committed(h)) && Replay(LogOf(Committed(h))) == Some(h.store)
  {
    hide Consistent, ReplayRecord, EncodeSeries, EncodeSamples, LogOf, Step, Replay, ReadDir;
    var base := Replay(LogOf(h)).value;
    var m := InsertAll(base, h.newSeries).value;
    var rec1, rec2 := EncodeSeries(h.newSeries), EncodeSamples(h.newSamples);
    var log1 := LogOf(h) + (if h.newSeries != [] then [rec1] else []);
    CommittedLog(h);
    if h.newSeries != [] {
      ReplaySnoc(LogOf(h), rec1);
      SeriesRecordReplays(base, h.newSeries);
    } else {
      assert log1 == LogOf(h);
    }
    assert Replay(log1) == Some(m);
    if h.newSamples != [] {
      ReplaySnoc(log1, rec2);
      SamplesRecordReplays(m, h.newSamples);
      assert log1 + [rec2] == LogOf(h) + CommitRecords(h);
    } else {
      assert log1 == LogOf(h) + CommitRecords(h);
    }
  }

  lemma SegmentsAdded(hs: seq<Segment>, op: WalOp)
    requires hs != [] && !op.Record?
    ensures AllBodies(Step(hs, op, DEFAULT_SEGMENT_SIZE)) == AllBodies(hs)
  {
    hide AllBodies, Step;
    StepBodies(hs, op, DEFAULT_SEGMENT_SIZE);
    assert AllBodies(hs) + [] == AllBodies(hs);
  }

  /** The directory of a head opens to the replay of its log, exactly when no record met the
      seven-byte room and no torn record was left behind by an earlier crash. */
  lemma OpenedIff(h: Head)
    requires Invariant(h)
    ensures Opened(Dir(h)) == if EndsWhole(h.past) && AllHazardFree(h.segs) then Replay(LogOf(h)) else None
  {
    hide Replay, AllBodies, ReadDir, AllHazardFree, EndsWhole, Backed;
    if EndsWhole(h.past) {
      WholeContinues(h.past, Files(h.segs));
      ReadsBack(h.segs);
    } else {
      TornIsFatal(h.past, Files(h.segs));
    }
  }

  /** Of a directory, whole or cut in its last segment, a prefix of the log is read. */
  lemma DirReadsPrefix(h: Head, c: nat)
    requires Invariant(h)
    ensures ReadDir(Dir(h)).0 <= LogOf(h) && ReadDir(CutDir(h, c)).0 <= LogOf(h)
  {
    hide Replay, AllBodies, ReadDir, EndsWhole, Backed, P.Written;
    var cut := CrashFiles(h.segs, Least(c, |P.Written(h.segs[|h.segs| - 1])|));
    if EndsWhole(h.past) {
      WholeContinues(h.past, Files(h.segs));
      WholeContinues(h.past, cut);
      DirectoryPrefix(h.segs, []);
      CrashReadsPrefix(h.segs, Least(c, |P.Written(h.segs[|h.segs| - 1])|));
      NothingBehind(h.segs);
    } else {
      TornIsFatal(h.past, Files(h.segs));
      TornIsFatal(h.past, cut);
    }
  }

  lemma NothingBehind(hs: seq<Segment>)
    ensures Files(hs) + [] == Files(hs) && AllBodies(hs) + ReadDir([]).0 == AllBodies(hs)
  {
    assert AllBodies(hs) + [] == AllBodies(hs);
  }

  lemma {:induction false} ReplayConsistent(recs: seq<Bytes>)
    requires Replay(recs).Some?
    ensures Consistent(Replay(recs).value)
  {
    hide Consistent, DecodeSeries, DecodeSamples;
    if recs == [] {
      EmptyConsistent();
    } else {
      var init, rec := recs[..|recs| - 1], recs[|recs| - 1];
      ReplayConsistent(init);
      var m := Replay(init).value;
      if PeekType(rec) == SERIES {
        InsertAllKeeps(m, DecodeSeries(rec).value);
      } else if PeekType(rec) == SAMPLES_V2 {
        AppendAllKeeps(m, DecodeSamples(rec).value);
      }
    }
  }

  /** Starting on a directory that gives a prefix of the log. */
  lemma RestartedKeeps(h: Head, files: seq<Bytes>)
    requires Invariant(h) && ReadDir(files).0 <= LogOf(h)
    ensures Invariant(Restarted(h, files)) && Restarted(h, files).store.nextRef <= h.store.nextRef
    ensures !Restarted(h, files).lost || h.lost || Opened(files) == None
    ensures Opened(files).Some? ==> LogOf(Restarted(h, files)) == ReadDir(files).0
  {
    hide Consistent, AllBodies, Replay, ReadDir, InsertAll, AppendAll;
    if Opened(files).Some? {
      var recs := ReadDir(files).0;
      ReplayConsistent(recs);
      EmptySegment();
      assert recs + [] == recs;
      NothingPending(Opened(files).value);
      assert recs == LogOf(h)[..|recs|];
      ReplayRefs(LogOf(h), |recs|);
      BaseRefs(h);
    }
  }

  lemma NothingPending(st: Store)
    ensures InsertAll(st, []) == Some(st) && AppendAll(st, []) == Some(st)
  {
  }

  /** Every call keeps the invariant: whatever was done to the head, replaying its log and then
      the pending records would give its store. */
  lemma InvariantKept(h: Head, op: HeadOp)
    requires Invariant(h) && Possible(h, op)
    ensures Invariant(Next(h, op))
  {
    hide Consistent, AllBodies, Step, Replay, Opened, Committed, Appending, AllHazardFree, ReadDir, Backed, Restarted, CutDir, Dir;
    match op
    case Append(labels, x) =>
      if !h.closed {
        AppendingKeeps(h, labels, x);
      }
    case Commit => CommittedKeeps(h);
    case Close =>
      if !h.closed {
        CommittedKeeps(h);
        SegmentsAdded(Committed(h).segs, Cut);
      }
    case Reopen =>
      DirReadsPrefix(h, 0);
      RestartedKeeps(h, Dir(h));
    case Crash(c) =>
      DirReadsPrefix(h, c);
      RestartedKeeps(h, CutDir(h, c));
  }

  // ---- Runs ------------------------------------------------------------------

  /** Fewer calls than there are references, and labels of 64-bit sizes. */
  predicate Small(ops: seq<HeadOp>) {
    |ops| < TWO64 - 1 && forall op :: op in ops && op.Append? ==> CountableLabels(op.labels)
  }

  lemma {:induction false} InsertAllRefs(st: Store, xs: seq<RefSeries>)
    ensures InsertAll(st, xs).Some? ==> st.nextRef <= InsertAll(st, xs).value.nextRef
  {
    if xs != [] {
      InsertAllRefs(st, xs[..|xs| - 1]);
    }
  }

  lemma BaseRefs(h: Head)
    requires Invariant(h)
    ensures Replay(LogOf(h)).value.nextRef <= h.store.nextRef
  {
    hide Consistent, Replay, LogOf, InsertAll, AppendAll, ReadDir;
    var base := Replay(LogOf(h)).value;
    InsertAllRefs(base, h.newSeries);
    InsertAllKeeps(base, h.newSeries);
    AppendAllKeeps(InsertAll(base, h.newSeries).value, h.newSamples);
  }

  lemma {:induction false} ReplayRefs(recs: seq<Bytes>, k: nat)
    requires Replay(recs).Some? && k <= |recs|
    ensures Replay(recs[..k]).Some? && Replay(recs[..k]).value.nextRef <= Replay(recs).value.nextRef
    decreases |recs|
  {
    hide InsertAll, AppendAll, DecodeSeries, DecodeSamples;
    if k < |recs| {
      var init, rec := recs[..|recs| - 1], recs[|recs| - 1];
      assert init[..k] == recs[..k];
      ReplayRefs(init, k);
      var m := Replay(init).value;
      ReplayConsistent(init);
      if PeekType(rec) == SERIES {
        InsertAllRefs(m, DecodeSeries(rec).value);
      } else if PeekType(rec) == SAMPLES_V2 {
        AppendAllKeeps(m, DecodeSamples(rec).value);
      }
    } else {
      assert recs[..k] == recs;
    }
  }

  lemma NextRefs(h: Head, op: HeadOp)
    requires Invariant(h)
    ensures Next(h, op).store.nextRef <= h.store.nextRef + 1
  {
    hide Consistent, Replay, AllBodies, Opened, Backed, SeriesAt, Appended, Refuses, AllHazardFree, ReadDir, Restarted, CutDir, Dir;
    match op
    case Reopen =>
      DirReadsPrefix(h, 0);
      RestartedKeeps(h, Dir(h));
    case Crash(c) =>
      DirReadsPrefix(h, c);
      RestartedKeeps(h, CutDir(h, c));
    case _ =>
  }

  /** The invariant holds after every run of calls. */
  lemma {:induction false} RunInvariant(ops: seq<HeadOp>)
    requires Small(ops)
    ensures Invariant(RunHead(ops)) && RunHead(ops).store.nextRef <= |ops| + 1
    decreases |ops|
  {
    hide Invariant, Next, Possible, CountableLabels;
    if ops == [] {
      FreshInvariant();
    } else {
      var init, op := ops[..|ops| - 1], ops[|ops| - 1];
      RunInvariant(init);
      PossibleNext(RunHead(init), op, |init|);
      InvariantKept(RunHead(init), op);
      NextRefs(RunHead(init), op);
    }
  }

  lemma PossibleNext(h: Head, op: HeadOp, n: nat)
    requires h.store.nextRef <= n + 1 < TWO64 && (op.Append? ==> CountableLabels(op.labels))
    ensures Possible(h, op)
  {
  }

  /** Closing and opening anew gives back the very store: references, label sets, the next
      reference, and every chunk with its samples. It does so exactly when no log record met the
      seven-byte room and no crash left a torn record behind; otherwise the log does not open. */
  lemma ReopenRestores(ops: seq<HeadOp>)
    requires Small(ops)
    ensures var h := RunHead(ops);
      h.newSeries == [] && h.newSamples == [] ==>
        Opened(Dir(h)) == if EndsWhole(h.past) && AllHazardFree(h.segs) then Some(h.store) else None
    ensures RunHead(ops).closed ==> RunHead(ops).newSeries == [] && RunHead(ops).newSamples == []
  {
    hide RunHead, Consistent, Replay, LogOf, Opened, AllHazardFree, ReadDir, EndsWhole, Dir;
    RunInvariant(ops);
    OpenedIff(RunHead(ops));
  }

  lemma {:induction false} ReplayPrefix(recs: seq<Bytes>, k: nat)
    requires Replay(recs).Some? && k <= |recs|
    ensures Replay(recs[..k]).Some?
    decreases |recs|
  {
    if k < |recs| {
      assert recs[..|recs| - 1][..k] == recs[..k];
      ReplayPrefix(recs[..|recs| - 1], k);
    } else {
      assert recs[..k] == recs;
    }
  }

  /** Records of other kinds than series (1) and samples (11) are passed over wherever they stand. */
  lemma {:induction false} OthersSkipped(a: seq<Bytes>, rec: Bytes, b: seq<Bytes>)
    requires rec == [] || (rec[0] != 1 && rec[0] != 11)
    ensures Replay(a + [rec] + b) == Replay(a + b)
    decreases |b|
  {
    hide InsertAll, AppendAll, DecodeSeries, DecodeSamples;
    if b == [] {
      assert a + [rec] + b == a + [rec] && (a + [rec])[..|a|] == a && a + b == a;
    } else {
      var init, last := b[..|b| - 1], b[|b| - 1];
      OthersSkipped(a, rec, init);
      assert (a + [rec] + b)[..|a| + |b|] == a + [rec] + init && (a + b)[..|a| + |b| - 1] == a + init;
    }
  }

  /** A log segment is left when it holds something and the record, at seven bytes for every part
      and six more, could take it past 134217728 bytes. */
  lemma LogLeftWhenFull(hs: seq<Segment>, rec: Bytes)
    requires hs != []
    ensures var used, n := |P.Written(hs[|hs| - 1])|, |rec|;
      var parts := if n == 0 then 1 else (n + 32760) / 32761;
      |Logged(hs, rec)| == |hs| + (if used > 0 && used + 7 * parts + n + 6 > 134217728 then 1 else 0)
  {
    hide P.Written;
  }

  /** Every prefix of the log can be replayed: no sample precedes its series, no reference is bound
      twice, and no time goes back. */
  lemma EveryPrefixReplays(ops: seq<HeadOp>, k: nat)
    requires Small(ops) && k <= |LogOf(RunHead(ops))|
    ensures Replay(LogOf(RunHead(ops))[..k]).Some?
  {
    hide RunHead, Consistent, Replay, LogOf, ReadDir;
    RunInvariant(ops);
    ReplayPrefix(LogOf(RunHead(ops)), k);
  }

  /** After a crash that left `c` bytes of the last segment, the head opens to the records that
      are complete on disk, unless the cut went through the inside of a fragment or an earlier
      crash had left a torn record; it opens once more after that only when the cut went between
      records. */
  lemma CrashRecovery(ops: seq<HeadOp>, c: nat)
    requires Small(ops) && AllHazardFree(RunHead(ops).segs)
    requires c <= |P.Written(RunHead(ops).segs[|RunHead(ops).segs| - 1])|
    ensures var h := RunHead(ops);
      var (recs, e) := P.Truncated(h.segs[|h.segs| - 1], c);
      var survived := ReadDir(h.past).0 + AllBodies(h.segs[..|h.segs| - 1]) + recs;
      && survived <= LogOf(h) && Replay(survived).Some?
      && Opened(CutDir(h, c)) == (if EndsWhole(h.past) && e != P.WalError.UnexpectedEnd then Replay(survived) else None)
      && Opened(CutDir(h, c) + [[]]) == (if EndsWhole(h.past) && e == P.WalError.EndOfStream then Replay(survived) else None)
  {
    hide RunHead, Consistent, Replay, AllBodies, ReadDir, P.Written, P.Truncated, P.HazardFree, EndsWhole, Backed;
    var h := RunHead(ops);
    var hs, earlier := h.segs, ReadDir(h.past).0;
    var init, last := hs[..|hs| - 1], hs[|hs| - 1];
    var recs := P.Truncated(last, c).0;
    RunInvariant(ops);
    assert hs == init + [last];
    AllBodiesSnoc(init, last);
    P.TruncatedIsPrefix(last, c);
    PrefixUnder(AllBodies(init), recs, P.Bodies(last));
    PrefixUnder(earlier, AllBodies(init) + recs, AllBodies(hs));
    var survived := earlier + AllBodies(init) + recs;
    assert survived == earlier + (AllBodies(init) + recs);
    EveryPrefixReplays(ops, |survived|);
    var cut := CrashFiles(hs, c);
    assert CutDir(h, c) == h.past + cut && CutDir(h, c) + [[]] == h.past + (cut + [[]]);
    if EndsWhole(h.past) {
      CrashRead(hs, c);
      NoRecords();
      CrashReadAgain(hs, c, [[]]);
      WholeContinues(h.past, cut);
      WholeContinues(h.past, cut + [[]]);
      assert AllBodies(init) + recs + [] == AllBodies(init) + recs;
    } else {
      TornIsFatal(h.past, cut);
      TornIsFatal(h.past, cut + [[]]);
    }
  }

  lemma PrefixUnder<T>(a: seq<T>, b: seq<T>, c: seq<T>)
    requires b <= c
    ensures a + b <= a + c && (a + c)[..|a + b|] == a + b
  {
  }

  lemma NoRecords()
    ensures Files([[]]) == [[]] && AllHazardFree([[]]) && AllBodies([[]]) == []
  {
    EmptySegment();
  }

  // ---- A reference without log, references or chunks --------------------------

  /** Samples by label set. */
  type Db = map<Labels, seq<Sample>>

  /** A database in memory, what it held after each record of its log, and whether label sets or
      samples are new since the last commit. */
  datatype Naive = Naive(live: Db, states: seq<Db>, wider: bool, grown: bool, closed: bool)

  predicate Takes(db: Db, labels: Labels, x: Sample) {
    labels !in db || db[labels] == [] || db[labels][|db[labels]| - 1].t <= x.t
  }

  function Put(db: Db, labels: Labels, x: Sample): Db {
    var was := if labels in db then db[labels] else [];
    db[labels := if Takes(db, labels, x) then was + [x] else was]
  }

  /** What is known of some label sets: nothing of the new ones. */
  ghost function Widened(db: Db, live: Db): Db {
    map ls | ls in live :: if ls in db then db[ls] else []
  }

  ghost function NaiveCommitted(n: Naive): (r: Naive)
    requires n.states != []
    ensures r.states != []
  {
    var a := if n.wider then n.states + [Widened(n.states[|n.states| - 1], n.live)] else n.states;
    var b := if n.grown then a + [n.live] else a;
    n.(states := b, wider := false, grown := false)
  }

  /** Back to what was held when all records but the last `k` had been written. */
  function Back(n: Naive, k: nat): (r: Naive)
    requires n.states != []
    ensures r.states != []
  {
    var i := |n.states| - 1 - Least(k, |n.states| - 1);
    Naive(n.states[i], n.states[..i + 1], false, false, false)
  }

  ghost function NextNaive(n: Naive, op: HeadOp, k: nat): (r: Naive)
    requires n.states != []
    ensures r.states != []
  {
    match op
    case Append(labels, x) =>
      if n.closed then n
      else n.(live := Put(n.live, labels, x), wider := n.wider || labels !in n.live, grown := n.grown || Takes(n.live, labels, x))
    case Commit => if n.closed then n else NaiveCommitted(n)
    case Close => if n.closed then n else NaiveCommitted(n).(closed := true)
    case Reopen => Back(n, 0)
    case Crash(_) => Back(n, k)
  }

  /** How many records a crash takes off the log: those of the last segment that end behind the
      cut. */
  function TakenOff(h: Head, op: HeadOp): nat
    requires h.segs != []
  {
    match op case Crash(c) => P.CutOff(h.segs[|h.segs| - 1], c) case _ => 0
  }

  ghost function RunNaive(ops: seq<HeadOp>): (r: Naive)
    ensures r.states != []
  {
    if ops == [] then Naive(map[], [map[]], false, false, false)
    else
      var init, last := ops[..|ops| - 1], ops[|ops| - 1];
      NextNaive(RunNaive(init), last, TakenOff(RunHead(init), last))
  }

  function SamplesAt(st: Store, ref: nat): seq<Sample> {
    match SeriesAt(st, ref) case Some(s) => Samples(s) case None => []
  }

  ghost function View(st: Store): Db {
    map ls | ls in st.byLabels :: SamplesAt(st, st.byLabels[ls])
  }

  /** What replaying each prefix of some records gives. */
  ghost predicate Traces(recs: seq<Bytes>, states: seq<Db>) {
    && |states| == |recs| + 1
    && forall i :: 0 <= i <= |recs| ==> Replay(recs[..i]).Some? && View(Replay(recs[..i]).value) == states[i]
  }

  ghost predicate Shows(h: Head, n: Naive) {
    && View(h.store) == n.live && h.closed == n.closed
    && (h.newSeries != [] <==> n.wider) && (h.newSamples != [] <==> n.grown)
    && Traces(LogOf(h), n.states)
  }

  lemma AppendingShows(st: Store, labels: Labels, x: Sample)
    requires Consistent(st)
    ensures var (st1, ref, isNew) := Created(st, labels);
      var r := WithSample(st1, ref, x);
      && View(if r.Some? then r.value else st1) == Put(View(st), labels, x)
      && (r.Some? <==> Takes(View(st), labels, x)) && (isNew <==> labels !in View(st))
  {
    hide Consistent, Samples, Refuses, Placed, SeriesAt, WithSample;
    var (st1, ref, isNew) := Created(st, labels);
    CreatedKeeps(st, labels);
    CreatedView(st, labels);
    WithSampleKeeps(st1, ref, x);
    WithSampleIndexes(st1, ref, x);
    OneLabelSet(st1, labels, ref);
    RefusesMeaning(SeriesAt(st1, ref).value, x.t);
    var r := WithSample(st1, ref, x);
    if r.Some? {
      SampleView(st1, r.value, labels, ref, x);
    } else {
      assert View(st1) == View(st1)[labels := SamplesAt(st1, ref)];
    }
  }

  lemma RefusesMeaning(s: Series, t: i64)
    ensures Refuses(s, t) <==> Samples(s) != [] && t < Samples(s)[|Samples(s)| - 1].t
  {
  }

  lemma CreatedView(st: Store, labels: Labels)
    requires Consistent(st)
    ensures var (st1, ref, isNew) := Created(st, labels);
      && labels in st1.byLabels && st1.byLabels[labels] == ref
      && (isNew ==> SamplesAt(st1, ref) == [])
      && View(st1) == if isNew then View(st)[labels := []] else View(st)
  {
    hide WellFormedSeries, Samples;
    var (st1, ref, isNew) := Created(st, labels);
    if isNew {
      CreatedKeeps(st, labels);
      NoSamples(ref, labels);
      forall ls | ls in st.byLabels
        ensures SamplesAt(st1, st1.byLabels[ls]) == SamplesAt(st, st.byLabels[ls])
      {
        assert SeriesAt(st, st.byLabels[ls]).Some?;
      }
    }
  }

  /** Only one label set has a given reference. */
  lemma OneLabelSet(st: Store, labels: Labels, ref: nat)
    requires Consistent(st) && labels in st.byLabels && st.byLabels[labels] == ref
    ensures forall ls :: ls in st.byLabels && st.byLabels[ls] == ref ==> ls == labels
  {
    hide WellFormedSeries;
    assert SeriesAt(st, ref).value.labels == labels;
  }

  lemma SampleView(st: Store, after: Store, labels: Labels, ref: nat, x: Sample)
    requires labels in st.byLabels && st.byLabels[labels] == ref && after.byLabels == st.byLabels
    requires forall ls :: ls in st.byLabels && st.byLabels[ls] == ref ==> ls == labels
    requires SamplesAt(after, ref) == SamplesAt(st, ref) + [x]
    requires forall k: nat :: k != ref ==> SeriesAt(after, k) == SeriesAt(st, k)
    ensures View(after) == View(st)[labels := SamplesAt(st, ref) + [x]]
  {
    hide Samples, SeriesAt;
  }

  // ---- Each step shows ---------------------------------------------------------

  lemma TracesSnoc(recs: seq<Bytes>, states: seq<Db>, rec: Bytes, st: Store)
    requires Traces(recs, states) && Replay(recs + [rec]) == Some(st)
    ensures Traces(recs + [rec], states + [View(st)])
  {
    hide Replay, View;
    var more := recs + [rec];
    forall i | 0 <= i <= |more|
      ensures Replay(more[..i]).Some? && View(Replay(more[..i]).value) == (states + [View(st)])[i]
    {
      if i <= |recs| {
        assert more[..i] == recs[..i];
      } else {
        assert more[..i] == more;
      }
    }
  }

  lemma TracesPrefix(recs: seq<Bytes>, states: seq<Db>, k: nat)
    requires Traces(recs, states) && k <= |recs|
    ensures Traces(recs[..k], states[..k + 1]) && Replay(recs[..k]).Some? && View(Replay(recs[..k]).value) == states[k]
  {
    hide Replay, View;
    forall i | 0 <= i <= k
      ensures Replay(recs[..k][..i]).Some? && View(Replay(recs[..k][..i]).value) == states[..k + 1][i]
    {
      assert recs[..k][..i] == recs[..i];
    }
  }

  lemma TracesEnd(recs: seq<Bytes>, states: seq<Db>)
    requires Traces(recs, states)
    ensures Replay(recs).Some? && View(Replay(recs).value) == states[|recs|]
  {
    hide Replay, View;
    assert recs[..|recs|] == recs;
  }

  /** New series hold no samples, and old ones stay as they are. */
  lemma {:induction false} InsertAllView(st: Store, xs: seq<RefSeries>)
    requires Consistent(st) && InsertAll(st, xs).Some?
    ensures var m := InsertAll(st, xs).value;
      && Consistent(m) && (forall ls :: ls in View(st) ==> ls in View(m) && View(m)[ls] == View(st)[ls])
      && forall ls :: ls in View(m) && ls !in View(st) ==> View(m)[ls] == []
  {
    hide Consistent, Inserted, View;
    if xs != [] {
      var init, x := xs[..|xs| - 1], xs[|xs| - 1];
      InsertAllView(st, init);
      InsertedView(InsertAll(st, init).value, x.ref, Canonicalized(x.labels));
    }
  }

  lemma InsertedView(st: Store, ref: nat, labels: Labels)
    requires Consistent(st) && Inserted(st, ref, labels).Some?
    ensures var m := Inserted(st, ref, labels).value;
      && Consistent(m) && (forall ls :: ls in View(st) ==> ls in View(m) && View(m)[ls] == View(st)[ls])
      && forall ls :: ls in View(m) && ls !in View(st) ==> View(m)[ls] == []
  {
    hide WellFormedSeries, Samples;
    InsertedKeeps(st, ref, labels);
    var m := Inserted(st, ref, labels).value;
    NoSamples(ref, labels);
    forall ls | ls in st.byLabels
      ensures SamplesAt(m, st.byLabels[ls]) == SamplesAt(st, st.byLabels[ls])
    {
      assert SeriesAt(st, st.byLabels[ls]).Some?;
    }
  }

  /** After the pending series, every label set is known, and of the new ones nothing else. */
  lemma PendingView(h: Head)
    requires Invariant(h)
    ensures var m := InsertAll(Replay(LogOf(h)).value, h.newSeries).value;
      View(m) == Widened(View(Replay(LogOf(h)).value), View(h.store))
  {
    hide Consistent, Replay, LogOf, SeriesAt, Samples, ReadDir, InsertAll, AppendAll;
    var base := Replay(LogOf(h)).value;
    var m := InsertAll(base, h.newSeries).value;
    InsertAllView(base, h.newSeries);
    AppendAllKeeps(m, h.newSamples);
    SameNames(m, h.store);
    WidenedIs(View(base), View(m), View(h.store));
  }

  lemma SameNames(a: Store, b: Store)
    requires a.byLabels == b.byLabels
    ensures View(a).Keys == View(b).Keys
  {
    hide SamplesAt;
  }

  lemma WidenedIs(was: Db, now: Db, live: Db)
    requires now.Keys == live.Keys
    requires forall ls :: ls in was ==> ls in now && now[ls] == was[ls]
    requires forall ls :: ls in now && ls !in was ==> now[ls] == []
    ensures now == Widened(was, live)
  {
  }

  lemma CommitShows(h: Head, n: Naive)
    requires Invariant(h) && Shows(h, n)
    ensures Shows(Committed(h), NaiveCommitted(n))
  {
    hide Consistent, ReplayRecord, EncodeSeries, EncodeSamples, LogOf, Step, Replay, ReadDir, View, Widened, InsertAll, AppendAll, Traces;
    LogStates(LogOf(h), n.states);
    var base := Replay(LogOf(h)).value;
    var m := InsertAll(base, h.newSeries).value;
    var rec1, rec2 := EncodeSeries(h.newSeries), EncodeSamples(h.newSamples);
    var log1 := LogOf(h) + (if h.newSeries != [] then [rec1] else []);
    var a := if n.wider then n.states + [Widened(n.states[|n.states| - 1], n.live)] else n.states;
    CommittedLog(h);
    TracesEnd(LogOf(h), n.states);
    if h.newSeries != [] {
      ReplaySnoc(LogOf(h), rec1);
      SeriesRecordReplays(base, h.newSeries);
      PendingView(h);
      TracesSnoc(LogOf(h), n.states, rec1, m);
    } else {
      NothingPending(base);
      assert log1 == LogOf(h);
    }
    assert Traces(log1, a) && Replay(log1) == Some(m);
    if h.newSamples != [] {
      ReplaySnoc(log1, rec2);
      SamplesRecordReplays(m, h.newSamples);
      TracesSnoc(log1, a, rec2, h.store);
      assert log1 + [rec2] == LogOf(h) + CommitRecords(h);
    } else {
      assert log1 == LogOf(h) + CommitRecords(h);
    }
  }

  lemma LogStates(recs: seq<Bytes>, states: seq<Db>)
    requires Traces(recs, states)
    ensures |states| == |recs| + 1
  {
  }

  lemma RestartShows(h: Head, n: Naive, files: seq<Bytes>, k: nat)
    requires Invariant(h) && Shows(h, n) && ReadDir(files).0 <= LogOf(h) && Opened(files).Some?
    requires |ReadDir(files).0| + k == |LogOf(h)|
    ensures Shows(Restarted(h, files), Back(n, k))
  {
    hide Consistent, Replay, ReadDir, LogOf, View, Traces, Backed;
    RestartedKeeps(h, files);
    LogStates(LogOf(h), n.states);
    TracesPrefix(LogOf(h), n.states, |LogOf(h)| - k);
    assert LogOf(h)[..|LogOf(h)| - k] == ReadDir(files).0;
  }

  lemma ShowsKept(h: Head, n: Naive, op: HeadOp)
    requires Invariant(h) && Possible(h, op) && Shows(h, n) && n.states != [] && !Next(h, op).lost
    ensures Shows(Next(h, op), NextNaive(n, op, TakenOff(h, op)))
  {
    hide Consistent, LogOf, Replay, Opened, AllHazardFree, View, Put, Takes, Step, Created, WithSample, Backed, ReadDir, Traces, Back,
      Committed, NaiveCommitted, CutDir, Dir, EndsWhole;
    match op
    case Append(labels, x) =>
      if !h.closed {
        AppendingShows(h.store, labels, x);
        SameLog(h, Appending(h, labels, x));
      }
    case Commit => CommitShows(h, n);
    case Close =>
      CommitShows(h, n);
      ClosedLog(Committed(h));
    case Reopen =>
      DirReadsPrefix(h, 0);
      WholeLog(h);
      RestartShows(h, n, Dir(h), 0);
    case Crash(c) =>
      DirReadsPrefix(h, c);
      CutLog(h, c);
      RestartShows(h, n, CutDir(h, c), P.CutOff(h.segs[|h.segs| - 1], c));
  }

  lemma ClosedLog(h: Head)
    requires h.segs != []
    ensures LogOf(h.(segs := Step(h.segs, Cut, DEFAULT_SEGMENT_SIZE), closed := true)) == LogOf(h)
  {
    hide AllBodies, Step, ReadDir;
    SegmentsAdded(h.segs, Cut);
  }

  /** A directory that opens gives the whole log. */
  lemma WholeLog(h: Head)
    requires Invariant(h) && Opened(Dir(h)).Some?
    ensures ReadDir(Dir(h)).0 == LogOf(h)
  {
    hide Replay, AllBodies, ReadDir, AllHazardFree, EndsWhole, Backed;
    OpenedIff(h);
    WholeContinues(h.past, Files(h.segs));
    ReadsBack(h.segs);
  }

  /** A directory that opens after a crash gives the log but for the records that end behind the
      cut. */
  lemma CutLog(h: Head, c: nat)
    requires Invariant(h) && Opened(CutDir(h, c)).Some?
    ensures |ReadDir(CutDir(h, c)).0| + P.CutOff(h.segs[|h.segs| - 1], c) == |LogOf(h)|
  {
    hide Replay, AllBodies, ReadDir, EndsWhole, Backed, P.Written, P.CutOff, Consistent;
    var last := h.segs[|h.segs| - 1];
    var d := Least(c, |P.Written(last)|);
    var cut := CrashFiles(h.segs, d);
    if EndsWhole(h.past) {
      WholeContinues(h.past, cut);
      CrashReadsRest(h.segs, d);
      if d < c {
        P.NothingCutOff(last, c);
        P.NothingCutOff(last, d);
      }
    } else {
      TornIsFatal(h.past, cut);
      assert false;
    }
  }

  lemma LostStays(h: Head, op: HeadOp)
    requires h.segs != [] && h.lost
    ensures Next(h, op) == h
  {
  }

  /** The head is a durable database. Over any run of appends, commits, closes, starts and crashes
      after which the log still opens, it holds exactly the samples that a plain map from label
      sets to samples holds, and replaying the first records of its log gives what that map held
      when they had been written; a crash takes the map back to the last record that is complete
      on disk. */
  lemma {:induction false} HeadRefinesNaive(ops: seq<HeadOp>)
    requires Small(ops) && !RunHead(ops).lost
    ensures View(RunHead(ops).store) == RunNaive(ops).live
    ensures RunHead(ops).closed == RunNaive(ops).closed
    ensures Traces(LogOf(RunHead(ops)), RunNaive(ops).states)
    decreases |ops|
  {
    RunShows(ops);
  }

  /** After any run the chunks of a series are the only way to cut the samples that the plain map
      holds for it, and every chunk but the last has between 1006 and 1024 bytes. */
  lemma ChunksFromSamples(ops: seq<HeadOp>, labels: Labels)
    requires Small(ops) && !RunHead(ops).lost && labels in RunHead(ops).store.byLabels
    ensures var st := RunHead(ops).store;
      && labels in RunNaive(ops).live && SeriesAt(st, st.byLabels[labels]).Some?
      && var chunks := SeriesAt(st, st.byLabels[labels]).value.chunks;
        && Flatten(chunks) == RunNaive(ops).live[labels]
        && (forall i :: 0 <= i < |chunks| - 1 ==> 1005 < ByteSize(chunks[i]) <= 1024)
        && forall other :: CutRight(other) && Flatten(other) == RunNaive(ops).live[labels] ==> other == chunks
  {
    hide RunHead, RunNaive, Consistent, Replay, LogOf, ReadDir, Traces, Backed, ByteSize, Flatten;
    HeadRefinesNaive(ops);
    RunInvariant(ops);
    var st := RunHead(ops).store;
    KnownSeries(st, labels);
    var s := SeriesAt(st, st.byLabels[labels]).value;
    assert View(st)[labels] == Samples(s);
    forall i | 0 <= i < |s.chunks| - 1
      ensures 1005 < ByteSize(s.chunks[i]) <= 1024
    {
      FullWhenLeft(s, i);
    }
    forall other | CutRight(other) && Flatten(other) == Flatten(s.chunks)
      ensures other == s.chunks
    {
      CutsUnique(other, s.chunks);
    }
  }

  lemma KnownSeries(st: Store, labels: Labels)
    requires Consistent(st) && labels in st.byLabels
    ensures SeriesAt(st, st.byLabels[labels]).Some? && WellFormedSeries(SeriesAt(st, st.byLabels[labels]).value)
  {
    hide WellFormedSeries;
  }

  lemma {:induction false} RunShows(ops: seq<HeadOp>)
    requires Small(ops) && !RunHead(ops).lost
    ensures Shows(RunHead(ops), RunNaive(ops))
    decreases |ops|
  {
    hide Next, NextNaive, Shows, Invariant, Possible, CountableLabels, TakenOff;
    if ops == [] {
      ViewEmpty();
    } else {
      var init, op := ops[..|ops| - 1], ops[|ops| - 1];
      if RunHead(init).lost {
        LostStays(RunHead(init), op);
        assert false;
      }
      RunInvariant(init);
      PossibleNext(RunHead(init), op, |init|);
      RunShows(init);
      ShowsKept(RunHead(init), RunNaive(init), op);
    }
  }

  lemma ViewEmpty()
    ensures Shows(FRESH, Naive(map[], [map[]], false, false, false))
  {
    EmptySegment();
    assert ReadDir([]) == ([], SegmentError.EndOfStream) && LogOf(FRESH) == [];
    var none: seq<Bytes> := [];
    assert none[..0] == none && Replay(none) == Some(EMPTY);
    assert View(EMPTY) == map[];
  }
}
