/** The write-ahead log as a directory of segments, none of which shares a record. */
module Segments {
  import opened Words
  import opened Wrappers
  import opened Pages
  import Crc32c

  datatype SegmentError = EndOfStream | CorruptMidStream | Crc | InvalidFraming | UnsupportedCompression

  function MapPageError(e: WalError): SegmentError {
    match e
    case EndOfStream | TornRecord => SegmentError.EndOfStream
    case CrcMismatch => Crc
    case UnsupportedCompression => SegmentError.UnsupportedCompression
    case UnexpectedEnd | InvalidRecType | UnexpectedFirst | UnexpectedMiddle => InvalidFraming
  }

  // ---- What is written -------------------------------------------------------

  /** One segment by the calls that filled it, and a directory by its segments in order. */
  type Segment = seq<PageOp>

  datatype WalOp = Record(body: Bytes) | Cut | Reopen

  /** Number of pages' worth of body, an empty body counting as one fragment. */
  function FullPages(n: nat): nat {
    if n == 0 then 1 else (n + MAX_FRAGMENT - 1) / MAX_FRAGMENT
  }

  /** The writer's estimate of the bytes a record of `n` bytes may take. */
  function UpperBound(n: nat): nat {
    FullPages(n) * HEADER + n + (HEADER - 1)
  }

  predicate Rolls(already: nat, n: nat, size: nat) {
    already > 0 && already + UpperBound(n) > size
  }

  function Step(hs: seq<Segment>, op: WalOp, size: nat): (r: seq<Segment>)
    requires hs != []
    ensures |r| >= |hs|
  {
    var init, cur := hs[..|hs| - 1], hs[|hs| - 1];
    match op
    case Record(b) =>
      if Rolls(|Written(cur)|, |b|, size) then init + [cur + [ClosePage], [Log(b)]] else init + [cur + [Log(b)]]
    case Cut => init + [cur + [ClosePage], []]
    case Reopen => hs + [[]]
  }

  /** The directory after a writer was opened on an empty one and then run. */
  function Run(ops: seq<WalOp>, size: nat): (r: seq<Segment>)
    ensures r != []
  {
    if ops == [] then [[]] else Step(Run(ops[..|ops| - 1], size), ops[|ops| - 1], size)
  }

  function Records(ops: seq<WalOp>): seq<Bytes> {
    if ops == [] then []
    else Records(ops[..|ops| - 1]) + (if ops[|ops| - 1].Record? then [ops[|ops| - 1].body] else [])
  }

  function Files(hs: seq<Segment>): (fs: seq<Bytes>)
    ensures |fs| == |hs| && forall i :: 0 <= i < |hs| ==> fs[i] == Written(hs[i])
  {
    seq(|hs|, i requires 0 <= i < |hs| => Written(hs[i]))
  }

  function AllBodies(hs: seq<Segment>): seq<Bytes> {
    if hs == [] then [] else AllBodies(hs[..|hs| - 1]) + Bodies(hs[|hs| - 1])
  }

  predicate AllHazardFree(hs: seq<Segment>) {
    forall i :: 0 <= i < |hs| ==> HazardFree(hs[i])
  }

  // ---- What is read ----------------------------------------------------------

  /** Every record of the rest of a segment and of the segments after it. */
  function ReadFrom(segs: seq<Bytes>, off: nat): (r: (seq<Bytes>, SegmentError))
    requires segs != []
    decreases |segs|, 0
  {
    var (recs, e) := ReadAll(segs[0], off);
    if e == WalError.EndOfStream || (e == TornRecord && |segs| == 1) then
      var more := ReadDir(segs[1..]);
      (recs + more.0, more.1)
    else (recs, if e == TornRecord then CorruptMidStream else MapPageError(e))
  }

  function ReadDir(segs: seq<Bytes>): (r: (seq<Bytes>, SegmentError))
    decreases |segs|, 1
  {
    if segs == [] then ([], SegmentError.EndOfStream) else ReadFrom(segs, 0)
  }

  // ---- Reading back what was written -----------------------------------------

  lemma BodiesSnoc(h: Segment, op: PageOp)
    ensures Bodies(h + [op]) == Bodies(h) + (match op case Log(b) => [b] case ClosePage => [])
    ensures Written(h + [op]) == Written(h) + Emitted(|Written(h)|, op)
    ensures HazardFree(h + [op]) <==>
      HazardFree(h) && (op.Log? ==> !Hazard(|Written(h)| % PAGE_SIZE, op.body))
  {
    assert (h + [op])[..|h|] == h;
  }

  lemma AllBodiesSnoc(hs: seq<Segment>, h: Segment)
    ensures AllBodies(hs + [h]) == AllBodies(hs) + Bodies(h)
  {
    assert (hs + [h])[..|hs|] == hs;
  }

  lemma {:induction false} AllBodiesConcat(a: seq<Segment>, b: seq<Segment>)
    ensures AllBodies(a + b) == AllBodies(a) + AllBodies(b)
    decreases |b|
  {
    if b == [] {
      assert a + b == a;
    } else {
      var init, h := b[..|b| - 1], b[|b| - 1];
      assert a + b == (a + init) + [h] && b == init + [h];
      AllBodiesConcat(a, init);
      AllBodiesSnoc(a + init, h);
    }
  }

  lemma EmptySegment()
    ensures Bodies([]) == [] && Written([]) == [] && AllBodies([]) == AllBodies([[]]) == []
  {
    AllBodiesSnoc([], []);
  }

  lemma ReplaceLast(init: seq<Segment>, cur: Segment, op: PageOp, next: seq<Segment>)
    ensures AllBodies(init + [cur + [op]] + next)
         == AllBodies(init + [cur]) + (match op case Log(b) => [b] case ClosePage => []) + AllBodies(next)
  {
    hide Written, Bodies, AllBodies, HazardFree;
    AllBodiesSnoc(init, cur);
    BodiesSnoc(cur, op);
    AllBodiesSnoc(init, cur + [op]);
    AllBodiesConcat(init + [cur + [op]], next);
  }

  /** A call adds exactly the record it was given. */
  lemma StepBodies(hs: seq<Segment>, op: WalOp, size: nat)
    requires hs != []
    ensures AllBodies(Step(hs, op, size)) == AllBodies(hs) + (if op.Record? then [op.body] else [])
  {
    hide Written, Bodies, AllBodies, Rolls;
    var init, cur := hs[..|hs| - 1], hs[|hs| - 1];
    assert hs == init + [cur];
    EmptySegment();
    match op
    case Record(b) =>
      if Rolls(|Written(cur)|, |b|, size) {
        FirstRecord(b, size);
        ReplaceLast(init, cur, ClosePage, [[Log(b)]]);
        assert init + [cur + [ClosePage], [Log(b)]] == init + [cur + [ClosePage]] + [[Log(b)]];
      } else {
        ReplaceLast(init, cur, Log(b), []);
        assert init + [cur + [Log(b)]] + [] == init + [cur + [Log(b)]];
        assert AllBodies(hs) + [b] + [] == AllBodies(hs) + [b];
      }
    case Cut =>
      ReplaceLast(init, cur, ClosePage, [[]]);
      assert init + [cur + [ClosePage], []] == init + [cur + [ClosePage]] + [[]];
    case Reopen =>
      AllBodiesConcat(hs, [[]]);
  }

  lemma {:induction false} RunBodies(ops: seq<WalOp>, size: nat)
    ensures AllBodies(Run(ops, size)) == Records(ops)
    decreases |ops|
  {
    hide Step, AllBodies;
    if ops == [] {
      EmptySegment();
    } else {
      RunBodies(ops[..|ops| - 1], size);
      StepBodies(Run(ops[..|ops| - 1], size), ops[|ops| - 1], size);
    }
  }

  /** Complete segments hand over to what follows them. */
  lemma {:induction false} ReadPast(hs: seq<Segment>, rest: seq<Bytes>)
    requires AllHazardFree(hs)
    ensures ReadDir(Files(hs) + rest) == (AllBodies(hs) + ReadDir(rest).0, ReadDir(rest).1)
    decreases |hs|
  {
    hide ReadAll, Written, Bodies, HazardFree;
    if hs == [] {
      assert Files(hs) + rest == rest && [] + ReadDir(rest).0 == ReadDir(rest).0;
    } else {
      var init, h := hs[..|hs| - 1], hs[|hs| - 1];
      assert hs == init + [h];
      assert Files(hs) + rest == Files(init) + ([Written(h)] + rest);
      ReadPast(init, [Written(h)] + rest);
      RoundTripIffHazardFree(h);
      assert ([Written(h)] + rest)[1..] == rest;
      assert AllBodies(init) + (Bodies(h) + ReadDir(rest).0) == AllBodies(hs) + ReadDir(rest).0;
    }
  }

  lemma {:induction false} FirstDamaged(hs: seq<Segment>) returns (k: nat)
    requires !AllHazardFree(hs)
    ensures k < |hs| && AllHazardFree(hs[..k]) && !HazardFree(hs[k])
  {
    k := 0;
    while k < |hs| && HazardFree(hs[k])
      invariant k <= |hs| && forall i :: 0 <= i < k ==> HazardFree(hs[i])
    {
      k := k + 1;
    }
  }

  lemma HazardSegment(h: Segment)
    requires !HazardFree(h)
    ensures ReadAll(Written(h), 0).1 == UnexpectedFirst
  {
    hide *;
    FirstHazard(h, []);
    assert Written(h) + [] == Written(h);
  }

  /** A directory read back, and the exact condition: every record comes back in order and then
      a clean end, exactly when in no segment a record met the seven-byte room. */
  lemma ReadsBack(hs: seq<Segment>)
    ensures ReadDir(Files(hs)) == (AllBodies(hs), SegmentError.EndOfStream) <==> AllHazardFree(hs)
    ensures !AllHazardFree(hs) ==> ReadDir(Files(hs)).1 == InvalidFraming
  {
    hide ReadAll, Written, Bodies, HazardFree, AllBodies;
    if AllHazardFree(hs) {
      ReadPast(hs, []);
      assert Files(hs) + [] == Files(hs) && AllBodies(hs) + [] == AllBodies(hs);
    } else {
      var k := FirstDamaged(hs);
      HazardSegment(hs[k]);
      ReadPast(hs[..k], Files(hs)[k..]);
      assert Files(hs[..k]) + Files(hs)[k..] == Files(hs);
    }
  }

  /** The same for the log of any run: what is read back is what was logged. */
  lemma DirectoryReadsBack(ops: seq<WalOp>, size: nat)
    ensures ReadDir(Files(Run(ops, size))) == (Records(ops), SegmentError.EndOfStream) <==> AllHazardFree(Run(ops, size))
  {
    hide *;
    RunBodies(ops, size);
    ReadsBack(Run(ops, size));
  }

  // ---- Crashes ---------------------------------------------------------------

  /** The directory when only the first `c` bytes of the last segment reached the disk. */
  function CrashFiles(hs: seq<Segment>, c: nat): (fs: seq<Bytes>)
    requires hs != [] && c <= |Written(hs[|hs| - 1])|
    ensures |fs| == |hs|
  {
    Files(hs[..|hs| - 1]) + [Written(hs[|hs| - 1])[..c]]
  }

  /** After a crash the log is readable, with every record that is complete on disk, unless the
      cut went through the inside of a fragment. */
  lemma CrashRead(hs: seq<Segment>, c: nat)
    requires hs != [] && c <= |Written(hs[|hs| - 1])| && AllHazardFree(hs)
    ensures var (recs, e) := Truncated(hs[|hs| - 1], c);
      ReadDir(CrashFiles(hs, c)) ==
        (AllBodies(hs[..|hs| - 1]) + recs, if e == WalError.UnexpectedEnd then InvalidFraming else SegmentError.EndOfStream)
  {
    hide ReadAll, Written, Bodies, HazardFree, AllBodies;
    var init, h := hs[..|hs| - 1], hs[|hs| - 1];
    ReadPast(init, [Written(h)[..c]]);
    TruncationSafety(h, c);
    TruncatedEnds(h, c);
    assert [Written(h)[..c]][1..] == [] && ReadDir([]) == ([], SegmentError.EndOfStream);
    assert Truncated(h, c).0 + [] == Truncated(h, c).0;
  }

  lemma {:induction false} TruncatedEnds(h: Segment, c: nat)
    requires c <= |Written(h)|
    ensures Truncated(h, c).1 in {WalError.EndOfStream, TornRecord, UnexpectedEnd}
    decreases |h|
  {
    if h != [] && c <= |Written(h[..|h| - 1])| {
      TruncatedEnds(h[..|h| - 1], c);
    }
  }

  /** Once another segment follows, a crash is forgiven only when it cut between records: a
      torn record, tolerated on the first reopening, is fatal on the next. */
  lemma CrashReadAgain(hs: seq<Segment>, c: nat, more: seq<Segment>)
    requires hs != [] && c <= |Written(hs[|hs| - 1])| && AllHazardFree(hs)
    requires more != [] && AllHazardFree(more)
    ensures var (recs, e) := Truncated(hs[|hs| - 1], c);
      ReadDir(CrashFiles(hs, c) + Files(more)) ==
        if e == WalError.EndOfStream then (AllBodies(hs[..|hs| - 1]) + recs + AllBodies(more), SegmentError.EndOfStream)
        else (AllBodies(hs[..|hs| - 1]) + recs, if e == TornRecord then CorruptMidStream else InvalidFraming)
  {
    hide ReadAll, Written, Bodies, HazardFree, AllBodies;
    var init, h := hs[..|hs| - 1], hs[|hs| - 1];
    var cut := [Written(h)[..c]];
    assert CrashFiles(hs, c) + Files(more) == Files(init) + (cut + Files(more));
    ReadPast(init, cut + Files(more));
    TruncationSafety(h, c);
    TruncatedEnds(h, c);
    assert (cut + Files(more))[1..] == Files(more);
    ReadPast(more, []);
    assert Files(more) + [] == Files(more) && AllBodies(more) + [] == AllBodies(more);
    assert AllBodies(init) + (Truncated(h, c).0 + AllBodies(more))
        == AllBodies(init) + Truncated(h, c).0 + AllBodies(more);
  }

  // ---- Any directory, and what is added behind it ----------------------------

  /** The last segment ends between records. */
  predicate EndsWhole(files: seq<Bytes>) {
    files == [] || ReadAll(files[|files| - 1], 0).1 == WalError.EndOfStream
  }

  /** A directory that can be read, and whose last segment is whole, is read on into whatever
      segments follow. */
  lemma {:induction false} WholeContinues(files: seq<Bytes>, more: seq<Bytes>)
    requires ReadDir(files).1 == SegmentError.EndOfStream && EndsWhole(files)
    ensures ReadDir(files + more) == (ReadDir(files).0 + ReadDir(more).0, ReadDir(more).1)
    decreases |files|
  {
    hide ReadAll;
    if files == [] {
      assert files + more == more && [] + ReadDir(more).0 == ReadDir(more).0;
    } else {
      var rest := files[1..];
      assert (files + more)[1..] == rest + more;
      assert rest != [] ==> rest[|rest| - 1] == files[|files| - 1];
      WholeContinues(rest, more);
      var a := ReadAll(files[0], 0).0;
      assert a + ReadDir(rest).0 + ReadDir(more).0 == a + (ReadDir(rest).0 + ReadDir(more).0);
    }
  }

  /** A directory that can be read only because its torn segment is the last one cannot be read
      once another segment follows. */
  lemma {:induction false} TornIsFatal(files: seq<Bytes>, more: seq<Bytes>)
    requires ReadDir(files).1 == SegmentError.EndOfStream && !EndsWhole(files) && more != []
    ensures ReadDir(files + more) == (ReadDir(files).0, CorruptMidStream)
    decreases |files|
  {
    hide ReadAll;
    var rest := files[1..];
    assert (files + more)[1..] == rest + more;
    var a := ReadAll(files[0], 0).0;
    if rest == [] {
      assert a + ReadDir([]).0 == a;
    } else {
      assert rest[|rest| - 1] == files[|files| - 1];
      TornIsFatal(rest, more);
    }
  }

  lemma PrefixInside<T>(a: seq<T>, b: seq<T>, c: seq<T>, d: seq<T>)
    requires b <= c
    ensures a + b <= a + c + d
  {
  }

  /** Whatever stands behind some segments, of them a prefix of what was logged is read. */
  lemma DirectoryPrefix(hs: seq<Segment>, rest: seq<Bytes>)
    ensures ReadDir(Files(hs) + rest).0 <= AllBodies(hs) + ReadDir(rest).0
  {
    hide ReadAll, Written, Bodies, HazardFree, AllBodies;
    if AllHazardFree(hs) {
      ReadPast(hs, rest);
    } else {
      var k := FirstDamaged(hs);
      var behind := Files(hs)[k..] + rest;
      ReadPast(hs[..k], behind);
      assert Files(hs[..k]) + behind == Files(hs) + rest;
      HazardReadsPrefix(hs[k]);
      assert behind[0] == Written(hs[k]);
      AllBodiesAt(hs, k);
      var more := AllBodies(hs[k + 1..]) + ReadDir(rest).0;
      PrefixInside(AllBodies(hs[..k]), ReadDir(behind).0, Bodies(hs[k]), more);
      assert AllBodies(hs[..k]) + Bodies(hs[k]) + more == AllBodies(hs) + ReadDir(rest).0;
    }
  }

  lemma HazardReadsPrefix(h: Segment)
    requires !HazardFree(h)
    ensures ReadAll(Written(h), 0).1 == UnexpectedFirst && ReadAll(Written(h), 0).0 <= Bodies(h)
  {
    hide *;
    FirstHazard(h, []);
    assert Written(h) + [] == Written(h);
  }

  lemma AllBodiesAt(hs: seq<Segment>, k: nat)
    requires k < |hs|
    ensures AllBodies(hs) == AllBodies(hs[..k]) + Bodies(hs[k]) + AllBodies(hs[k + 1..])
  {
    hide *;
    AllBodiesConcat(hs[..k + 1], hs[k + 1..]);
    Halves(hs, k + 1);
    AllBodiesSnoc(hs[..k], hs[k]);
    OneFurther(hs, k);
  }

  lemma Halves<T>(s: seq<T>, k: nat)
    requires k <= |s|
    ensures s[..k] + s[k..] == s
  {
  }

  lemma OneFurther<T>(s: seq<T>, k: nat)
    requires k < |s|
    ensures s[..k] + [s[k]] == s[..k + 1]
  {
  }

  /** Cut the last segment anywhere: of the directory, a prefix of what was logged is read. */
  lemma CrashReadsPrefix(hs: seq<Segment>, c: nat)
    requires hs != [] && c <= |Written(hs[|hs| - 1])|
    ensures ReadDir(CrashFiles(hs, c)).0 <= AllBodies(hs)
  {
    hide ReadAll, Written, Bodies, AllBodies;
    var init, h := hs[..|hs| - 1], hs[|hs| - 1];
    var cut := Written(h)[..c];
    assert hs == init + [h];
    AllBodiesSnoc(init, h);
    DirectoryPrefix(init, [cut]);
    CutReadsPrefix(h, c);
    OneSegment(cut);
    PrefixInside(AllBodies(init), ReadDir([cut]).0, Bodies(h), []);
    assert AllBodies(init) + Bodies(h) + [] == AllBodies(hs);
  }

  /** A segment with a lost record stops the reader, whatever follows. */
  lemma DamagedStops(hs: seq<Segment>, rest: seq<Bytes>)
    requires !AllHazardFree(hs)
    ensures ReadDir(Files(hs) + rest).1 == InvalidFraming
  {
    hide ReadAll, Written, Bodies, HazardFree, AllBodies;
    var k := FirstDamaged(hs);
    var behind := Files(hs)[k..] + rest;
    ReadPast(hs[..k], behind);
    assert Files(hs[..k]) + behind == Files(hs) + rest;
    HazardReadsPrefix(hs[k]);
    assert behind[0] == Written(hs[k]);
  }

  /** A directory that can be read after a crash gives all records but those that the cut took
      off the last segment. */
  lemma CrashReadsRest(hs: seq<Segment>, c: nat)
    requires hs != [] && c <= |Written(hs[|hs| - 1])| && ReadDir(CrashFiles(hs, c)).1 == SegmentError.EndOfStream
    ensures |ReadDir(CrashFiles(hs, c)).0| + CutOff(hs[|hs| - 1], c) == |AllBodies(hs)|
  {
    hide ReadAll, Written, Bodies, AllBodies, CutOff, HazardFree;
    var init, h := hs[..|hs| - 1], hs[|hs| - 1];
    var cut := Written(h)[..c];
    assert hs == init + [h];
    AllBodiesSnoc(init, h);
    if !AllHazardFree(init) {
      DamagedStops(init, [cut]);
      assert false;
    }
    ReadPast(init, [cut]);
    OneSegment(cut);
    CutReadsRest(h, c);
  }

  /** A directory with one fragment's body changed inside four consecutive bytes, in any of its
      segments and whatever stands behind: the records in front are read, then the checksum is
      reported. */
  lemma DirectoryDamaged(hs: seq<Segment>, h: Segment, n: nat, i: nat, changed: Bytes, k: nat, behind: seq<Bytes>)
    requires AllHazardFree(hs) && HasFragment(h, n, i) && Crc32c.DifferWithinFour(FragmentOf(h, n, i).data, changed, k)
    ensures var w, p, m := Written(h), FragmentStart(h, n, i), |FragmentOf(h, n, i).data|;
      && p + m <= |w| && w[p..p + m] == FragmentOf(h, n, i).data
      && ReadDir(Files(hs) + [Spliced(w, p, m, changed)] + behind) == (AllBodies(hs) + Bodies(h[..n]), Crc)
  {
    hide ReadAll, Written, Bodies, AllBodies, HasFragment, FragmentOf, FragmentStart, HazardFree, Crc32c.DifferWithinFour, Spliced;
    BufferDamaged(h, n, i, changed, k);
    var w, p, m := Written(h), FragmentStart(h, n, i), |FragmentOf(h, n, i).data|;
    var file := Spliced(w, p, m, changed);
    assert Files(hs) + [file] + behind == Files(hs) + ([file] + behind);
    ReadPast(hs, [file] + behind);
  }

  /** A segment whose first byte has a compression flag, or a type that is none, ends the reading
      with the error that says so. */
  lemma StrangeStart(hs: seq<Segment>, file: Bytes, behind: seq<Bytes>)
    requires AllHazardFree(hs) && |file| >= HEADER && file[0] != 0
    ensures file[0] % 32 >= 8 ==> ReadDir(Files(hs) + [file] + behind) == (AllBodies(hs), SegmentError.UnsupportedCompression)
    ensures 4 < file[0] % 32 < 8 ==> ReadDir(Files(hs) + [file] + behind) == (AllBodies(hs), InvalidFraming)
  {
    hide ReadAll, Written, Bodies, AllBodies, HazardFree;
    StrangeByte(file);
    assert Files(hs) + [file] + behind == Files(hs) + ([file] + behind);
    ReadPast(hs, [file] + behind);
    assert AllBodies(hs) + [] == AllBodies(hs);
  }

  lemma OneSegment(seg: Bytes)
    ensures ReadDir([seg]).0 == ReadAll(seg, 0).0
    ensures ReadAll(seg, 0).1 == UnexpectedFirst ==> ReadDir([seg]).1 == InvalidFraming
  {
    hide ReadAll;
    assert [seg][1..] == [] && ReadDir([]).0 == [];
    assert ReadAll(seg, 0).0 + [] == ReadAll(seg, 0).0;
  }

  // ---- Sizes -----------------------------------------------------------------

  lemma PagesStep(n: nat)
    requires n > MAX_FRAGMENT
    ensures FullPages(n) == FullPages(n - MAX_FRAGMENT) + 1
  {
  }

  lemma AddPage(n: nat)
    ensures (PAGE_SIZE + n) % PAGE_SIZE == n % PAGE_SIZE
  {
  }

  lemma {:induction false} ContinueSize(body: Bytes)
    requires body != []
    ensures |Continue(body)| == FullPages(|body|) * HEADER + |body|
    ensures |Continue(body)| % PAGE_SIZE == 0 || |Continue(body)| % PAGE_SIZE >= HEADER
    decreases |body|
  {
    hide Frag;
    if |body| > MAX_FRAGMENT {
      PagesStep(|body|);
      ContinueSize(body[MAX_FRAGMENT..]);
      AddPage(|Continue(body[MAX_FRAGMENT..])|);
      assert |Continue(body)| == PAGE_SIZE + |Continue(body[MAX_FRAGMENT..])|;
    }
  }

  /** The exact size of a record at a page offset. */
  function FrameSize(off: nat, n: nat): nat
    requires off < PAGE_SIZE
  {
    var left := PAGE_SIZE - off;
    if left < HEADER then left + FullPages(n) * HEADER + n
    else if n <= left - HEADER then HEADER + n
    else HEADER + FullPages(n - (left - HEADER)) * HEADER + n
  }

  lemma {:induction false} FrameSizeExact(off: nat, body: Bytes)
    requires off < PAGE_SIZE
    ensures |Frame(off, body)| == FrameSize(off, |body|)
    decreases off
  {
    hide Frag, Continue;
    var left := PAGE_SIZE - off;
    if left < HEADER {
      FrameSizeExact(0, body);
      AtPageStart(|body|);
    } else if |body| > left - HEADER {
      if left == HEADER {
        FrameSizeExact(0, body);
        AtPageStart(|body|);
      } else {
        ContinueSize(body[left - HEADER..]);
      }
    }
  }

  lemma AtPageStart(n: nat)
    ensures FrameSize(0, n) == FullPages(n) * HEADER + n
  {
    if n > MAX_FRAGMENT {
      PagesStep(n);
    }
  }

  lemma PagesMono(m: nat, n: nat)
    requires 0 < m <= n
    ensures FullPages(m) <= FullPages(n)
  {
  }

  lemma FrameSizeBound(off: nat, n: nat)
    requires off < PAGE_SIZE
    ensures FrameSize(off, n) <= UpperBound(n) + 1
    ensures FrameSize(off, n) > UpperBound(n) <==>
      var room := PAGE_SIZE - off - HEADER;
      0 <= room < n && FullPages(n - room) == FullPages(n)
  {
    hide FullPages;
    var room := PAGE_SIZE - off - HEADER;
    if 0 <= room < n {
      PagesMono(n - room, n);
    } else {
      AtLeastOne(n);
    }
  }

  lemma AtLeastOne(n: nat)
    ensures FullPages(n) >= 1
  {
  }

  /** The estimate is at most one byte short, and short exactly when the record crosses a page
      without the crossing saving it a page. */
  lemma UpperBoundWithinOne(off: nat, body: Bytes)
    requires off < PAGE_SIZE
    ensures |Frame(off, body)| <= UpperBound(|body|) + 1
    ensures |Frame(off, body)| > UpperBound(|body|) <==>
      var room := PAGE_SIZE - off - HEADER;
      0 <= room < |body| && FullPages(|body| - room) == FullPages(|body|)
  {
    hide Frame, UpperBound, FullPages, FrameSize;
    FrameSizeExact(off, body);
    FrameSizeBound(off, |body|);
  }

  lemma ModSum(n: nat, len: nat)
    ensures (n % PAGE_SIZE + len) % PAGE_SIZE == (n + len) % PAGE_SIZE
  {
    assert n == n / PAGE_SIZE * PAGE_SIZE + n % PAGE_SIZE;
  }

  /** No record ends within a header's length of a page start. */
  lemma {:induction false} FrameEnd(off: nat, body: Bytes)
    requires off < PAGE_SIZE
    ensures var e := (off + |Frame(off, body)|) % PAGE_SIZE; e == 0 || e >= HEADER
    decreases off
  {
    hide Frag, Continue;
    var left := PAGE_SIZE - off;
    if left < HEADER {
      FrameEnd(0, body);
      AddPage(|Frame(0, body)|);
      assert off + |Frame(off, body)| == PAGE_SIZE + |Frame(0, body)|;
    } else if |body| > left - HEADER {
      if left == HEADER {
        FrameEnd(0, body);
        AddPage(|Frame(0, body)|);
        assert off + |Frame(off, body)| == PAGE_SIZE + |Frame(0, body)|;
      } else {
        ContinueSize(body[left - HEADER..]);
        AddPage(|Continue(body[left - HEADER..])|);
        assert off + |Frame(off, body)| == PAGE_SIZE + |Continue(body[left - HEADER..])|;
      }
    }
  }

  /** With two records or more, a segment fits its size even once padded. */
  predicate Fits(h: Segment, size: nat) {
    |Bodies(h)| >= 2 ==> |Written(h)| + PagePad(|Written(h)|) <= size
  }

  /** Segment sizes no run can overrun: too small for a second record, or at most six bytes over
      a whole number of pages. */
  predicate SafeSize(size: nat) {
    size < 2 * HEADER + (HEADER - 1) || size % PAGE_SIZE < HEADER
  }

  predicate AllFit(hs: seq<Segment>, size: nat) {
    forall i :: 0 <= i < |hs| ==> Fits(hs[i], size)
  }

  lemma SafeRoom(n: nat, size: nat)
    requires size % PAGE_SIZE < HEADER && n <= size + 1
    requires n % PAGE_SIZE == 0 || n % PAGE_SIZE >= HEADER
    requires n == size + 1 ==> n % PAGE_SIZE != HEADER
    ensures n + PagePad(n) <= size
  {
    assert n == n / PAGE_SIZE * PAGE_SIZE + n % PAGE_SIZE;
    assert size == size / PAGE_SIZE * PAGE_SIZE + size % PAGE_SIZE;
  }

  /** A record that the estimate misses leaves part of its body on the last page. */
  lemma ShortEnd(off: nat, n: nat)
    requires off < PAGE_SIZE && FrameSize(off, n) > UpperBound(n)
    ensures (off + FrameSize(off, n)) % PAGE_SIZE != HEADER
  {
    FrameSizeBound(off, n);
    var m := n - (PAGE_SIZE - off - HEADER);
    var k := FullPages(m);
    LastPart(m);
    hide FullPages;
    assert off + FrameSize(off, n) == k * PAGE_SIZE + HEADER + (m - (k - 1) * MAX_FRAGMENT);
    PagesOff(k, HEADER + (m - (k - 1) * MAX_FRAGMENT));
  }

  lemma LastPart(m: nat)
    requires m > 0
    ensures 0 < m - (FullPages(m) - 1) * MAX_FRAGMENT <= MAX_FRAGMENT
  {
  }

  lemma PagesOff(k: nat, r: nat)
    requires HEADER < r <= PAGE_SIZE
    ensures (k * PAGE_SIZE + r) % PAGE_SIZE != HEADER
  {
    assert (k * PAGE_SIZE + r) % PAGE_SIZE == r % PAGE_SIZE;
  }

  lemma LogFits(h: Segment, body: Bytes, size: nat)
    requires SafeSize(size) && !Rolls(|Written(h)|, |body|, size)
    ensures Fits(h + [Log(body)], size)
  {
    hide Frame, UpperBound, Hazard, PagePad, Rolls, Bodies, Written, SafeSize, HazardFree;
    BodiesSnoc(h, Log(body));
    if Bodies(h) != [] {
      HeaderWritten(h);
      SecondFits(|Written(h)|, body, size);
    }
  }

  lemma SecondFits(n: nat, body: Bytes, size: nat)
    requires SafeSize(size) && HEADER <= n && !Rolls(n, |body|, size)
    ensures var end := n + |Frame(n % PAGE_SIZE, body)|; end + PagePad(end) <= size
  {
    hide Frame, UpperBound, FrameSize, PagePad;
    LeastEstimate(|body|);
    UpperBoundWithinOne(n % PAGE_SIZE, body);
    FrameEnd(n % PAGE_SIZE, body);
    FrameSizeExact(n % PAGE_SIZE, body);
    if |Frame(n % PAGE_SIZE, body)| > UpperBound(|body|) {
      ShortEnd(n % PAGE_SIZE, |body|);
    }
    ModSum(n, |Frame(n % PAGE_SIZE, body)|);
    SafeRoom(n + |Frame(n % PAGE_SIZE, body)|, size);
  }

  lemma LeastEstimate(n: nat)
    ensures UpperBound(n) >= HEADER + (HEADER - 1)
  {
  }

  lemma {:induction false} HeaderWritten(h: Segment)
    requires Bodies(h) != []
    ensures |Written(h)| >= HEADER
  {
    hide Frame;
    var init, last := h[..|h| - 1], h[|h| - 1];
    match last
    case ClosePage =>
      assert Bodies(h) == Bodies(init);
      HeaderWritten(init);
    case Log(b) =>
      FrameLeast(|Written(init)| % PAGE_SIZE, b);
  }

  lemma FrameLeast(off: nat, body: Bytes)
    requires off < PAGE_SIZE
    ensures |Frame(off, body)| >= HEADER
  {
    hide Frame;
    FrameSizeExact(off, body);
  }

  lemma CloseFits(h: Segment, size: nat)
    requires Fits(h, size)
    ensures Fits(h + [ClosePage], size)
  {
    hide Written, Bodies, PagePad, HazardFree, Hazard;
    BodiesSnoc(h, ClosePage);
    PaddedLength(|Written(h)|);
  }

  lemma PaddedLength(n: nat)
    ensures PagePad(n + PagePad(n)) == 0
  {
    if n % PAGE_SIZE != 0 {
      PageAfter(n, PAGE_SIZE - n % PAGE_SIZE);
    }
  }

  /** With a safe size, every segment that holds two records or more fits, padding included. */
  lemma {:induction false} SegmentsFit(ops: seq<WalOp>, size: nat)
    requires SafeSize(size)
    ensures AllFit(Run(ops, size), size)
    decreases |ops|
  {
    hide Written, Bodies, Rolls, Fits, SafeSize;
    if ops == [] {
      NoRecordFits([], size);
    } else {
      var hs, op := Run(ops[..|ops| - 1], size), ops[|ops| - 1];
      SegmentsFit(ops[..|ops| - 1], size);
      CloseFits(hs[|hs| - 1], size);
      NoRecordFits([], size);
      if op.Record? {
        NoRecordFits([Log(op.body)], size);
        if !Rolls(|Written(hs[|hs| - 1])|, |op.body|, size) {
          LogFits(hs[|hs| - 1], op.body, size);
        }
      }
    }
  }

  lemma NoRecordFits(h: Segment, size: nat)
    requires |h| <= 1
    ensures Fits(h, size)
  {
    hide Written, PagePad, Bodies;
    EmptySegment();
    if h != [] {
      BodiesSnoc([], h[0]);
      assert [] + [h[0]] == h;
    }
  }

  /** Two records that overrun any other size. Below a page, two empty ones do, once padded. Above,
      the first leaves seven bytes of its page and the estimate for the second, of one byte, misses
      the fragment without data that goes out there. */
  function Overrunning(size: nat): seq<WalOp> {
    if size < PAGE_SIZE then [Record([]), Record([])]
    else [Record(Zeros(size / PAGE_SIZE * MAX_FRAGMENT - HEADER)), Record([0])]
  }

  lemma TwoRecords(a: Bytes, b: Bytes, size: nat)
    requires !Rolls(|Frame(0, a)|, |b|, size)
    ensures Run([Record(a), Record(b)], size) == [[Log(a), Log(b)]]
    ensures Bodies([Log(a), Log(b)]) == [a, b]
    ensures |Written([Log(a), Log(b)])| == |Frame(0, a)| + |Frame(|Frame(0, a)| % PAGE_SIZE, b)|
  {
    hide Frame, Rolls, Bodies, Written;
    FirstRecord(a, size);
    BodiesSnoc([Log(a)], Log(b));
    assert [Log(a)] + [Log(b)] == [Log(a), Log(b)] && [a] + [b] == [a, b];
    assert [Record(a), Record(b)][..1] == [Record(a)];
    assert Run([Record(a), Record(b)], size) == Step([[Log(a)]], Record(b), size);
  }

  lemma Overruns(size: nat)
    requires !SafeSize(size)
    ensures !AllFit(Run(Overrunning(size), size), size)
  {
    hide Frame, Zeros, FrameSize, Bodies, Written, Run, Rolls, PagePad, SafeSize;
    var ops := Overrunning(size);
    var a, b := ops[0].body, ops[1].body;
    assert ops == [Record(a), Record(b)];
    FrameSizeExact(0, a);
    if size < PAGE_SIZE {
      SmallOverrun(size);
      FrameSizeExact(HEADER, b);
    } else {
      LargeOverrun(size);
      FrameSizeExact(PAGE_SIZE - HEADER, b);
    }
    TwoRecords(a, b, size);
    assert Run(ops, size)[0] == [Log(a), Log(b)];
  }

  lemma SmallOverrun(size: nat)
    requires !SafeSize(size) && size < PAGE_SIZE
    ensures FrameSize(0, 0) == HEADER && FrameSize(HEADER, 0) == HEADER && !Rolls(HEADER, 0, size)
    ensures 2 * HEADER + PagePad(2 * HEADER) > size && HEADER % PAGE_SIZE == HEADER
  {
  }

  lemma LargeOverrun(size: nat)
    requires !SafeSize(size) && size >= PAGE_SIZE
    ensures var n := size / PAGE_SIZE * MAX_FRAGMENT - HEADER;
      && n >= 0 && FrameSize(0, n) % PAGE_SIZE == PAGE_SIZE - HEADER && !Rolls(FrameSize(0, n), 1, size)
      && FrameSize(0, n) + FrameSize(PAGE_SIZE - HEADER, 1) + PagePad(FrameSize(0, n) + FrameSize(PAGE_SIZE - HEADER, 1)) > size
  {
    var q := size / PAGE_SIZE;
    var n := q * MAX_FRAGMENT - HEADER;
    assert FullPages(n) == q;
    AtPageStart(n);
    hide FrameSize;
    assert FrameSize(0, n) == (q - 1) * PAGE_SIZE + (PAGE_SIZE - HEADER);
    OneByteOver();
    var end := q * PAGE_SIZE + HEADER + 1;
    assert end % PAGE_SIZE == HEADER + 1 && size < (q + 1) * PAGE_SIZE;
  }

  lemma OneByteOver()
    ensures FrameSize(PAGE_SIZE - HEADER, 1) == 2 * HEADER + 1 && UpperBound(1) == 2 * HEADER
  {
  }

  /** Every run fits its segment size exactly when the size leaves no room for a second record, or
      is at most six bytes over a whole number of pages. */
  lemma SegmentsFitIff(size: nat)
    ensures (forall ops :: AllFit(Run(ops, size), size)) <==> size < 20 || size % PAGE_SIZE <= 6
  {
    hide AllFit, Run;
    assert SafeSize(size) <==> size < 20 || size % PAGE_SIZE <= 6;
    if SafeSize(size) {
      forall ops
        ensures AllFit(Run(ops, size), size)
      {
        SegmentsFit(ops, size);
      }
    } else {
      Overruns(size);
    }
  }

  /** One such overrun in numbers. */
  lemma SegmentOverrun()
    ensures var hs := Run([Record(Zeros(32754)), Record([0])], 32775);
      |hs| == 1 && |Bodies(hs[0])| == 2 && |Written(hs[0])| == 32776
  {
    hide Frame, Zeros, Rolls, FrameSize, Bodies, Written;
    OverrunSizes();
    var big := Zeros(32754);
    FrameSizeExact(0, big);
    FrameSizeExact(32761, [0]);
    TwoRecords(big, [0], 32775);
  }

  lemma OverrunSizes()
    ensures !Rolls(32761, 1, 32775) && FrameSize(32761, 1) == 15 && FrameSize(0, 32754) == 32761
  {
  }

  lemma FirstRecord(body: Bytes, size: nat)
    ensures Run([Record(body)], size) == [[Log(body)]]
    ensures AllBodies([[Log(body)]]) == Bodies([Log(body)]) == [body]
    ensures Written([Log(body)]) == Frame(0, body)
  {
    hide Frame, UpperBound;
    EmptySegment();
    BodiesSnoc([], Log(body));
    AllBodiesSnoc([], [Log(body)]);
    assert [] + [Log(body)] == [Log(body)] && [] + [[Log(body)]] == [[Log(body)]];
    assert [Record(body)][..0] == [];
    assert Run([Record(body)], size) == Step([[]], Record(body), size);
  }

  // ---- The writer and the reader ---------------------------------------------

  lemma WrittenSnoc(h: Segment, body: Bytes)
    ensures Written(h + [PageOp.ClosePage]) == Written(h) + Zeros(PagePad(|Written(h)|))
    ensures Written(h + [PageOp.Log(body)]) == Written(h) + Frame(|Written(h)| % PAGE_SIZE, body)
  {
    hide Frame, PagePad;
    BodiesSnoc(h, PageOp.ClosePage);
    BodiesSnoc(h, PageOp.Log(body));
  }

  const DEFAULT_SEGMENT_SIZE := 128 * 1024 * 1024

  class SegmentWriter {
    const size: nat
    /** The directory: one file per segment, the last one open. */
    var files: seq<Bytes>
    var pw: PageWriter
    var flushed: nat
    /** What was there when this writer was opened. */
    ghost const past: seq<Bytes>
    /** The calls that filled each segment since. */
    ghost var segments: seq<Segment>

    ghost predicate Valid()
      reads this, pw
    {
      && segments != [] && files == past + Files(segments)
      && pw.buf == files[|files| - 1]
      && flushed == |pw.buf|
    }

    /** Opens the next segment behind those already there. */
    constructor (existing: seq<Bytes>, size: nat)
      ensures Valid() && fresh(pw) && this.size == size
      ensures past == existing && segments == [[]]
    {
      this.size := size;
      files := existing + [[]];
      pw := new PageWriter();
      flushed := 0;
      past := existing;
      segments := [[]];
    }

    function FramedSizeUpperBound(n: nat): (b: nat)
      ensures b == UpperBound(n)
    {
      var bodyPerPage := PAGE_SIZE - HEADER;
      var fragments := if n == 0 then 1 else (n + bodyPerPage - 1) / bodyPerPage;
      fragments * HEADER + n + (HEADER - 1)
    }

    /** Writes what the page writer holds and the file does not. */
    method FlushPending()
      requires files != [] && flushed <= |pw.buf| && files[|files| - 1] == pw.buf[..flushed]
      modifies this`files, this`flushed
      ensures files == old(files)[..|old(files)| - 1] + [pw.buf] && flushed == |pw.buf|
    {
      if flushed >= |pw.buf| {
        assert pw.buf[..flushed] == pw.buf;
        return;
      }
      var pending := pw.buf[flushed..];
      assert pw.buf[..flushed] + pending == pw.buf;
      files := files[|files| - 1 := files[|files| - 1] + pending];
      flushed := |pw.buf|;
    }

    method OpenNewSegment()
      modifies this
      ensures files == old(files) + [[]] && fresh(pw) && pw.buf == [] && flushed == 0
      ensures segments == old(segments)
    {
      files := files + [[]];
      pw := new PageWriter();
      flushed := 0;
    }

    /** Pads and closes the current segment and opens the next. */
    method Cut()
      requires Valid()
      modifies this, pw
      ensures Valid() && fresh(pw)
      ensures segments == Step(old(segments), WalOp.Cut, size)
    {
      hide Written, PagePad, Frame;
      ghost var cur := segments[|segments| - 1];
      WrittenSnoc(cur, []);
      pw.ClosePage();
      FlushPending();
      segments := segments[..|segments| - 1] + [cur + [PageOp.ClosePage]];
      assert files == past + Files(segments);
      OpenNewSegment();
      segments := segments + [[]];
      EmptySegment();
    }

    /** Logs one record, in a new segment when it might not fit this one. */
    method Log(body: Bytes)
      requires Valid()
      modifies this, pw
      ensures Valid() && (pw == old(pw) || fresh(pw))
      ensures segments == Step(old(segments), Record(body), size)
    {
      hide Written, Bodies, PagePad, Frame, UpperBound, HazardFree, Hazard;
      var already := flushed + (|pw.buf| - flushed);
      if already > 0 && already + FramedSizeUpperBound(|body|) > size {
        Cut();
      }
      WriteRecord(body);
      assert [] + [PageOp.Log(body)] == [PageOp.Log(body)];
    }

    /** The record goes to the page writer and from there to the file. */
    method WriteRecord(body: Bytes)
      requires Valid()
      modifies this, pw
      ensures Valid() && pw == old(pw)
      ensures var init, cur := old(segments)[..|old(segments)| - 1], old(segments)[|old(segments)| - 1];
        segments == init + [cur + [PageOp.Log(body)]]
    {
      hide Written, PagePad, Frame;
      ghost var cur := segments[|segments| - 1];
      WrittenSnoc(cur, body);
      pw.Log(body);
      FlushPending();
      segments := segments[..|segments| - 1] + [cur + [PageOp.Log(body)]];
      assert files == past + Files(segments);
    }
  }

  class SegmentReader {
    const segments: seq<Bytes>
    var index: nat
    var reader: PageReader?

    constructor (segments: seq<Bytes>)
      ensures Valid() && reader == null
      ensures this.segments == segments && Remaining() == ReadDir(segments)
    {
      this.segments, index, reader := segments, 0, null;
    }

    ghost predicate Valid()
      reads this, reader
    {
      index <= |segments| && (reader != null ==> index < |segments| && reader.buf == segments[index])
    }

    /** The records still to come, and the error after them. */
    ghost function Remaining(): (seq<Bytes>, SegmentError)
      requires Valid()
      reads this, reader
    {
      if reader == null then ReadDir(segments[index..]) else ReadFrom(segments[index..], reader.offset)
    }

    /** The next record, across segments. A torn record is a clean end in the last segment only. */
    method NextRecord() returns (r: Result<Bytes, SegmentError>)
      requires Valid()
      modifies this, reader
      ensures Valid() && (reader == null || reader == old(reader) || fresh(reader))
      ensures match r
        case Ok(rec) => old(Remaining()) == ([rec] + Remaining().0, Remaining().1)
        case Err(e) => old(Remaining()) == ([], e)
    {
      hide Next;
      while index < |segments|
        invariant Valid() && (reader == null || reader == old(reader) || fresh(reader))
        invariant Remaining() == old(Remaining())
        decreases |segments| - index
      {
        if reader == null {
          reader := new PageReader(segments[index]);
        }
        ghost var rest := segments[index..];
        ghost var from := reader.offset;
        assert rest[0] == segments[index] && rest[1..] == segments[index + 1..];
        var rec := reader.NextRecord();
        StepFrom(rest, from);
        if rec.Ok? {
          return Ok(rec.value);
        }
        var e := rec.error;
        var isLast := index + 1 == |segments|;
        if e == WalError.EndOfStream {
          reader := null;
          index := index + 1;
          continue;
        }
        if e == WalError.TornRecord && isLast {
          reader := null;
          index := index + 1;
          continue;
        }
        if e == WalError.TornRecord {
          return Err(CorruptMidStream);
        }
        return Err(MapPageError(e));
      }
      return Err(SegmentError.EndOfStream);
    }
  }

  /** One record, or the end, of the segment in front. */
  lemma StepFrom(segs: seq<Bytes>, off: nat)
    requires segs != []
    ensures match Next(segs[0], off, false, [])
      case (Ok(rec), end) => ReadFrom(segs, off) == ([rec] + ReadFrom(segs, end).0, ReadFrom(segs, end).1)
      case (Err(e), _) =>
        if e == WalError.EndOfStream || (e == TornRecord && |segs| == 1) then ReadFrom(segs, off) == ReadDir(segs[1..])
        else ReadFrom(segs, off) == ([], if e == TornRecord then CorruptMidStream else MapPageError(e))
  {
    hide Next;
    match Next(segs[0], off, false, [])
    case (Ok(rec), end) =>
      ReadOne(segs[0], off, rec, end);
      var a, b := ReadAll(segs[0], end).0, ReadDir(segs[1..]).0;
      assert [rec] + a + b == [rec] + (a + b);
    case (Err(e), _) =>
      assert [] + ReadDir(segs[1..]).0 == ReadDir(segs[1..]).0;
  }
}
