/** Encoding of the write-ahead log's series and sample records. */
module WalRecords {
  import opened Words
  import opened BigEndian
  import opened Wrappers
  import opened Varint
  import opened LabelSets
  import opened Sorting

  type Bytes = seq<byte>

  datatype RefSeries = RefSeries(ref: u64, labels: seq<Label>)
  datatype RefSample = RefSample(ref: u64, t: i64, st: i64, v: u64)

  datatype RecordError = InvalidType | UnexpectedEnd | TrailingBytes | LabelTooLong | StMarkerInvalid

  const SERIES: byte := 1
  const SAMPLES_V2: byte := 11
  const UNKNOWN: byte := 255

  const ST_NO: byte := 0
  const ST_SAME: byte := 1
  const ST_EXPLICIT: byte := 2

  function PeekType(rec: Bytes): byte {
    if rec == [] then UNKNOWN else rec[0]
  }

  // ---- Series records --------------------------------------------------------

  function EncStr(s: Str): Bytes {
    Uvarint(|s|) + s
  }

  function EncLabels(ls: seq<Label>): Bytes {
    if ls == [] then [] else EncStr(ls[0].key) + EncStr(ls[0].val) + EncLabels(ls[1..])
  }

  function EncEntry(x: RefSeries): Bytes {
    ToBe(x.ref, 8) + Uvarint(|x.labels|) + EncLabels(x.labels)
  }

  function EncEntries(xs: seq<RefSeries>): Bytes {
    if xs == [] then [] else EncEntry(xs[0]) + EncEntries(xs[1..])
  }

  function EncodeSeries(xs: seq<RefSeries>): Bytes {
    [SERIES] + EncEntries(xs)
  }

  /** Every count is a 64-bit count. */
  predicate Countable(x: RefSeries) {
    |x.labels| < TWO64 && forall l :: l in x.labels ==> |l.key| < TWO64 && |l.val| < TWO64
  }

  // Readers give the value and the number of bytes it took, or nothing when the bytes end early.

  function TakeBe64(buf: Bytes): (r: Option<(u64, nat)>)
    ensures r.Some? ==> r.value.1 <= |buf|
  {
    if |buf| < 8 then None else (BeBound(buf[..8]); Some((BeValue(buf[..8]), 8)))
  }

  lemma BeBound(bs: Bytes)
    requires |bs| == 8
    ensures BeValue(bs) < TWO64
  {
    hide BeValue;
    BeValueBits(bs);
    Pow2Values();
  }

  function TakeUvarint(buf: Bytes): (r: Option<(nat, nat)>)
    ensures r.Some? ==> r.value.1 <= |buf|
  {
    match DecodeUvarint(buf) case Ok(p) => Some(p) case Err(_) => None
  }

  function TakeVarint(buf: Bytes): (r: Option<(i64, nat)>)
    ensures r.Some? ==> r.value.1 <= |buf|
  {
    match DecodeVarint(buf) case Ok(p) => Some(p) case Err(_) => None
  }

  function TakeStr(buf: Bytes): (r: Option<(Str, nat)>)
    ensures r.Some? ==> r.value.1 <= |buf|
  {
    match TakeUvarint(buf)
    case None => None
    case Some((n, k)) => if k + n > |buf| then None else Some((buf[k..k + n], k + n))
  }

  function TakeLabel(buf: Bytes): (r: Option<(Label, nat)>)
    ensures r.Some? ==> r.value.1 <= |buf|
  {
    match TakeStr(buf)
    case None => None
    case Some((name, j)) =>
      match TakeStr(buf[j..]) case None => None case Some((value, k)) => Some((Entry(name, value), j + k))
  }

  function TakeLabels(buf: Bytes, count: nat): Option<(seq<Label>, nat)>
    decreases count
  {
    hide *;
    if count == 0 then Some(([], 0))
    else
      var l := TakeLabel(buf);
      if l.None? then None
      else
        var ls := TakeLabels(buf[l.value.1..], count - 1);
        if ls.None? then None else Some(([l.value.0] + ls.value.0, l.value.1 + ls.value.1))
  }

  lemma {:induction false} TakeLabelsBound(buf: Bytes, count: nat)
    ensures TakeLabels(buf, count).Some? ==> TakeLabels(buf, count).value.1 <= |buf|
    decreases count
  {
    hide TakeLabel;
    if count > 0 && TakeLabel(buf).Some? {
      TakeLabelsBound(buf[TakeLabel(buf).value.1..], count - 1);
    }
  }

  function TakeEntry(buf: Bytes): (r: Option<(RefSeries, nat)>)
    ensures r.Some? ==> 0 < r.value.1 <= |buf|
  {
    match TakeBe64(buf)
    case None => None
    case Some((ref, i)) =>
      match TakeUvarint(buf[i..])
      case None => None
      case Some((count, j)) =>
        TakeLabelsBound(buf[i + j..], count);
        match TakeLabels(buf[i + j..], count)
        case None => None
        case Some((ls, k)) => Some((RefSeries(ref, ls), i + j + k))
  }

  function TakeEntries(buf: Bytes): Result<seq<RefSeries>, RecordError>
    decreases |buf|
  {
    if buf == [] then Ok([])
    else match TakeEntry(buf)
      case None => Err(RecordError.UnexpectedEnd)
      case Some((x, k)) => match TakeEntries(buf[k..]) case Err(e) => Err(e) case Ok(xs) => Ok([x] + xs)
  }

  function DecodeSeries(rec: Bytes): Result<seq<RefSeries>, RecordError> {
    if PeekType(rec) != SERIES then Err(InvalidType) else TakeEntries(rec[1..])
  }

  // ---- Sample records --------------------------------------------------------

  /** Signed difference and sum, wrapping. */
  function Minus(a: int, b: int): i64 {
    ToI64(a - b)
  }

  function Plus(a: int, b: int): i64 {
    ToI64(a + b)
  }

  function EncSt(st: i64, firstSt: i64, prevSt: i64): Bytes {
    if st == 0 then [ST_NO]
    else if st == prevSt then [ST_SAME]
    else [ST_EXPLICIT] + ZigZagVarint(Minus(st, firstSt))
  }

  function EncFirst(s: RefSample): Bytes {
    ZigZagVarint(ToI64(s.ref)) + ZigZagVarint(s.t) + ZigZagVarint(s.st) + ToBe(s.v, 8)
  }

  function EncNext(first: RefSample, prev: RefSample, s: RefSample): Bytes {
    ZigZagVarint(Minus(ToI64(s.ref), ToI64(prev.ref))) + ZigZagVarint(Minus(s.t, first.t))
    + EncSt(s.st, first.st, prev.st) + ToBe(s.v, 8)
  }

  function EncRest(first: RefSample, prev: RefSample, ss: seq<RefSample>): Bytes
    decreases |ss|
  {
    if ss == [] then [] else EncNext(first, prev, ss[0]) + EncRest(first, ss[0], ss[1..])
  }

  function EncodeSamples(ss: seq<RefSample>): Bytes {
    if ss == [] then [SAMPLES_V2] else [SAMPLES_V2] + EncFirst(ss[0]) + EncRest(ss[0], ss[0], ss[1..])
  }

  function TakeSt(buf: Bytes, firstSt: i64, prevSt: i64): (r: Result<(i64, nat), RecordError>)
    ensures r.Ok? ==> 0 < r.value.1 <= |buf|
  {
    if buf == [] then Err(RecordError.UnexpectedEnd)
    else if buf[0] == ST_NO then Ok((0, 1))
    else if buf[0] == ST_SAME then Ok((prevSt, 1))
    else if buf[0] != ST_EXPLICIT then Err(StMarkerInvalid)
    else match TakeVarint(buf[1..])
      case None => Err(RecordError.UnexpectedEnd)
      case Some((d, k)) => Ok((Plus(firstSt, d), 1 + k))
  }

  function TakeFirst(buf: Bytes): (r: Result<(RefSample, nat), RecordError>)
    ensures r.Ok? ==> 0 < r.value.1 <= |buf|
  {
    match TakeVarint(buf)
    case None => Err(RecordError.UnexpectedEnd)
    case Some((ref, i)) =>
      match TakeVarint(buf[i..])
      case None => Err(RecordError.UnexpectedEnd)
      case Some((t, j)) =>
        match TakeVarint(buf[i + j..])
        case None => Err(RecordError.UnexpectedEnd)
        case Some((st, k)) =>
          match TakeBe64(buf[i + j + k..])
          case None => Err(RecordError.UnexpectedEnd)
          case Some((v, n)) => Ok((RefSample(ToU64(ref), t, st, v), i + j + k + n))
  }

  function TakeNext(firstT: i64, firstSt: i64, prev: RefSample, buf: Bytes): (r: Result<(RefSample, nat), RecordError>)
    ensures r.Ok? ==> 0 < r.value.1 <= |buf|
  {
    match TakeVarint(buf)
    case None => Err(RecordError.UnexpectedEnd)
    case Some((ref, i)) =>
      match TakeVarint(buf[i..])
      case None => Err(RecordError.UnexpectedEnd)
      case Some((t, j)) =>
        match TakeSt(buf[i + j..], firstSt, prev.st)
        case Err(e) => Err(e)
        case Ok((st, k)) =>
          match TakeBe64(buf[i + j + k..])
          case None => Err(RecordError.UnexpectedEnd)
          case Some((v, n)) =>
            Ok((RefSample(ToU64(Plus(ToI64(prev.ref), ref)), Plus(firstT, t), st, v), i + j + k + n))
  }

  function TakeRest(firstT: i64, firstSt: i64, prev: RefSample, buf: Bytes): Result<seq<RefSample>, RecordError>
    decreases |buf|
  {
    if buf == [] then Ok([])
    else match TakeNext(firstT, firstSt, prev, buf)
      case Err(e) => Err(e)
      case Ok((s, k)) =>
        match TakeRest(firstT, firstSt, s, buf[k..]) case Err(e) => Err(e) case Ok(ss) => Ok([s] + ss)
  }

  function DecodeSamples(rec: Bytes): Result<seq<RefSample>, RecordError> {
    if PeekType(rec) != SAMPLES_V2 then Err(InvalidType)
    else if |rec| == 1 then Ok([])
    else match TakeFirst(rec[1..])
      case Err(e) => Err(e)
      case Ok((s, k)) =>
        match TakeRest(s.t, s.st, s, rec[1 + k..]) case Err(e) => Err(e) case Ok(ss) => Ok([s] + ss)
  }

  // ---- Round trips -----------------------------------------------------------

  lemma DropAfter(a: Bytes, b: Bytes, c: Bytes)
    ensures (a + b + c)[|a|..] == b + c && a + b + c == a + (b + c)
    ensures (a + b)[|a|..] == b
  {
  }

  lemma Be64Back(x: u64, tail: Bytes)
    ensures TakeBe64(ToBe(x, 8) + tail) == Some((x, 8))
  {
    hide ToBe, BeValue;
    Pow2Values();
    BeRoundTrip(x, 8);
    assert (ToBe(x, 8) + tail)[..8] == ToBe(x, 8);
  }

  lemma UvarintBack(x: u64, tail: Bytes)
    ensures TakeUvarint(Uvarint(x) + tail) == Some((x, |Uvarint(x)|))
  {
    hide DecodeUvarint;
    UvarintRoundTrip(x, tail);
  }

  lemma VarintBack(x: i64, tail: Bytes)
    ensures TakeVarint(ZigZagVarint(x) + tail) == Some((x, |ZigZagVarint(x)|))
  {
    hide DecodeVarint;
    VarintRoundTrip(x, tail);
  }

  lemma StrBack(s: Str, tail: Bytes)
    requires |s| < TWO64
    ensures TakeStr(EncStr(s) + tail) == Some((s, |EncStr(s)|))
  {
    hide TakeUvarint, Uvarint;
    UvarintBack(|s|, s + tail);
    DropAfter(Uvarint(|s|), s, tail);
    assert (EncStr(s) + tail)[|Uvarint(|s|)|..|EncStr(s)|] == s;
  }

  lemma LabelBack(l: Label, tail: Bytes)
    requires |l.key| < TWO64 && |l.val| < TWO64
    ensures TakeLabel(EncStr(l.key) + EncStr(l.val) + tail) == Some((l, |EncStr(l.key) + EncStr(l.val)|))
  {
    hide TakeStr, EncStr;
    DropAfter(EncStr(l.key), EncStr(l.val), tail);
    StrBack(l.key, EncStr(l.val) + tail);
    StrBack(l.val, tail);
  }

  lemma {:induction false} LabelsBack(ls: seq<Label>, tail: Bytes)
    requires forall l :: l in ls ==> |l.key| < TWO64 && |l.val| < TWO64
    ensures TakeLabels(EncLabels(ls) + tail, |ls|) == Some((ls, |EncLabels(ls)|))
  {
    hide TakeLabel, EncStr;
    if ls != [] {
      var a := EncStr(ls[0].key) + EncStr(ls[0].val);
      LabelBack(ls[0], EncLabels(ls[1..]) + tail);
      DropAfter(a, EncLabels(ls[1..]), tail);
      LabelsBack(ls[1..], tail);
      assert [ls[0]] + ls[1..] == ls;
    }
  }

  lemma EntryBack(x: RefSeries, tail: Bytes)
    requires Countable(x)
    ensures TakeEntry(EncEntry(x) + tail) == Some((x, |EncEntry(x)|))
  {
    hide TakeBe64, TakeUvarint, TakeLabels, Uvarint, EncLabels, ToBe;
    var a, b, c := ToBe(x.ref, 8), Uvarint(|x.labels|), EncLabels(x.labels);
    Be64Back(x.ref, b + c + tail);
    UvarintBack(|x.labels|, c + tail);
    LabelsBack(x.labels, tail);
    DropAfter(a, b, c + tail);
    DropAfter(a + b, c, tail);
    assert a + (b + c + tail) == EncEntry(x) + tail;
  }

  lemma {:induction false} EntriesBack(xs: seq<RefSeries>)
    requires forall x :: x in xs ==> Countable(x)
    ensures TakeEntries(EncEntries(xs)) == Ok(xs)
  {
    hide TakeEntry, EncEntry;
    if xs != [] {
      EntryBack(xs[0], EncEntries(xs[1..]));
      DropAfter(EncEntry(xs[0]), EncEntries(xs[1..]), []);
      EntriesBack(xs[1..]);
      assert [xs[0]] + xs[1..] == xs;
    }
  }

  /** A series record gives back the series it was made of. */
  lemma SeriesRoundTrip(xs: seq<RefSeries>)
    requires forall x :: x in xs ==> Countable(x)
    ensures DecodeSeries(EncodeSeries(xs)) == Ok(xs)
  {
    hide TakeEntries, EncEntries;
    EntriesBack(xs);
    assert EncodeSeries(xs)[1..] == EncEntries(xs);
  }

  lemma StBack(st: i64, firstSt: i64, prevSt: i64, tail: Bytes)
    ensures TakeSt(EncSt(st, firstSt, prevSt) + tail, firstSt, prevSt) == Ok((st, |EncSt(st, firstSt, prevSt)|))
  {
    hide TakeVarint, ZigZagVarint, ToI64;
    if st != 0 && st != prevSt {
      WrapAddBack(st, firstSt);
      VarintBack(Minus(st, firstSt), tail);
      DropAfter([ST_EXPLICIT], ZigZagVarint(Minus(st, firstSt)), tail);
    }
  }

  /** Four fields in a row. */
  lemma FourFields(a: Bytes, b: Bytes, c: Bytes, d: Bytes, tail: Bytes)
    ensures var s := a + b + c + d + tail;
      && s == a + (b + c + d + tail)
      && s[|a|..] == b + (c + d + tail)
      && s[|a| + |b|..] == c + (d + tail)
      && s[|a| + |b| + |c|..] == d + tail
  {
  }

  lemma FirstBack(s: RefSample, tail: Bytes)
    ensures TakeFirst(EncFirst(s) + tail) == Ok((s, |EncFirst(s)|))
  {
    hide TakeBe64, TakeVarint, ZigZagVarint, ToBe, ToI64;
    var a, b, c, d := ZigZagVarint(ToI64(s.ref)), ZigZagVarint(s.t), ZigZagVarint(s.st), ToBe(s.v, 8);
    FourFields(a, b, c, d, tail);
    VarintBack(ToI64(s.ref), b + c + d + tail);
    VarintBack(s.t, c + d + tail);
    VarintBack(s.st, d + tail);
    Be64Back(s.v, tail);
    assert ToU64(ToI64(s.ref)) == ToU64(s.ref) == s.ref;
  }

  /** A reference comes back from its wrapped difference. */
  lemma RefBack(ref: u64, prev: u64)
    ensures ToU64(Plus(ToI64(prev), Minus(ToI64(ref), ToI64(prev)))) == ref
  {
    hide ToI64;
    WrapAddBack(ToI64(ref), ToI64(prev));
    assert ToU64(ToI64(ref)) == ToU64(ref) == ref;
  }

  lemma NextBack(first: RefSample, prev: RefSample, s: RefSample, tail: Bytes)
    ensures TakeNext(first.t, first.st, prev, EncNext(first, prev, s) + tail) == Ok((s, |EncNext(first, prev, s)|))
  {
    hide TakeBe64, TakeVarint, TakeSt, ZigZagVarint, EncSt, ToBe, ToI64;
    var ref, t := Minus(ToI64(s.ref), ToI64(prev.ref)), Minus(s.t, first.t);
    var a, b, c, d := ZigZagVarint(ref), ZigZagVarint(t), EncSt(s.st, first.st, prev.st), ToBe(s.v, 8);
    FourFields(a, b, c, d, tail);
    VarintBack(ref, b + c + d + tail);
    VarintBack(t, c + d + tail);
    StBack(s.st, first.st, prev.st, d + tail);
    Be64Back(s.v, tail);
    RefBack(s.ref, prev.ref);
    WrapAddBack(s.t, first.t);
  }

  lemma {:induction false} RestBack(first: RefSample, prev: RefSample, ss: seq<RefSample>)
    ensures TakeRest(first.t, first.st, prev, EncRest(first, prev, ss)) == Ok(ss)
    decreases |ss|
  {
    hide TakeNext, EncNext;
    if ss != [] {
      NextBack(first, prev, ss[0], EncRest(first, ss[0], ss[1..]));
      DropAfter(EncNext(first, prev, ss[0]), EncRest(first, ss[0], ss[1..]), []);
      RestBack(first, ss[0], ss[1..]);
      assert [ss[0]] + ss[1..] == ss;
    }
  }

  /** A sample record gives back its samples, whatever their references, times, start times and
      values. */
  lemma SamplesRoundTrip(ss: seq<RefSample>)
    ensures DecodeSamples(EncodeSamples(ss)) == Ok(ss)
  {
    hide TakeFirst, TakeRest, EncFirst, EncRest;
    if ss != [] {
      var a, b := EncFirst(ss[0]), EncRest(ss[0], ss[0], ss[1..]);
      FirstBack(ss[0], b);
      DropAfter([SAMPLES_V2], a, b);
      DropAfter([SAMPLES_V2] + a, b, []);
      RestBack(ss[0], ss[0], ss[1..]);
      assert [ss[0]] + ss[1..] == ss;
    }
  }

  /** Of the declared errors, trailing bytes and overlong labels are never reported. */
  lemma {:induction false} SeriesErrors(rec: Bytes)
    ensures DecodeSeries(rec).Err? ==> DecodeSeries(rec).error in {InvalidType, RecordError.UnexpectedEnd}
  {
    if PeekType(rec) == SERIES {
      EntriesErrors(rec[1..]);
    }
  }

  lemma {:induction false} EntriesErrors(buf: Bytes)
    ensures TakeEntries(buf).Err? ==> TakeEntries(buf).error == RecordError.UnexpectedEnd
    decreases |buf|
  {
    hide TakeEntry;
    if buf != [] && TakeEntry(buf).Some? {
      EntriesErrors(buf[TakeEntry(buf).value.1..]);
    }
  }

  // ---- The encoders' loops ---------------------------------------------------

  method AppendUvarint(buf: Bytes, x: u64) returns (out: Bytes)
    ensures out == buf + Uvarint(x)
  {
    var tmp := new byte[MAX_VARINT_LEN64](_ => 0);
    var n := PutUvarint(tmp, x);
    out := buf + tmp[..n];
  }

  method AppendVarint(buf: Bytes, x: i64) returns (out: Bytes)
    ensures out == buf + ZigZagVarint(x)
  {
    var tmp := new byte[MAX_VARINT_LEN64](_ => 0);
    var n := PutVarint(tmp, x);
    out := buf + tmp[..n];
  }

  method AppendStr(buf: Bytes, s: Str) returns (out: Bytes)
    requires |s| < TWO64
    ensures out == buf + EncStr(s)
  {
    out := AppendUvarint(buf, |s|);
    out := out + s;
  }

  method AppendLabels(buf: Bytes, ls: seq<Label>) returns (out: Bytes)
    requires forall l :: l in ls ==> |l.key| < TWO64 && |l.val| < TWO64
    ensures out == buf + EncLabels(ls)
  {
    hide EncStr, EncLabels;
    out := buf;
    assert ls[0..] == ls;
    for k := 0 to |ls|
      invariant out + EncLabels(ls[k..]) == buf + EncLabels(ls)
    {
      assert ls[k] in ls;
      LabelsFrom(ls, k);
      Regroup3(out, EncStr(ls[k].key), EncStr(ls[k].val), EncLabels(ls[k + 1..]));
      out := AppendStr(out, ls[k].key);
      out := AppendStr(out, ls[k].val);
    }
    NoLabels(ls, out);
  }

  lemma Regroup3(a: Bytes, b: Bytes, c: Bytes, d: Bytes)
    ensures a + (b + c + d) == a + b + c + d && a + (b + c) == a + b + c
  {
  }

  lemma NoLabels(ls: seq<Label>, out: Bytes)
    ensures out + EncLabels(ls[|ls|..]) == out
  {
  }

  method EncodeSeriesRecord(xs: seq<RefSeries>) returns (out: Bytes)
    requires forall x :: x in xs ==> Countable(x)
    ensures out == EncodeSeries(xs)
  {
    hide EncLabels, ToBe, Uvarint;
    out := [SERIES];
    for i := 0 to |xs|
      invariant out + EncEntries(xs[i..]) == EncodeSeries(xs)
    {
      var x := xs[i];
      assert x in xs;
      EntriesFrom(xs, i);
      Regroup3(out, EncEntry(x), EncEntries(xs[i + 1..]), []);
      Regroup3(out, ToBe(x.ref, 8), Uvarint(|x.labels|), EncLabels(x.labels));
      out := AppendBe64(out, x.ref);
      out := AppendUvarint(out, |x.labels|);
      out := AppendLabels(out, x.labels);
    }
  }

  lemma EntriesFrom(xs: seq<RefSeries>, i: nat)
    requires i < |xs|
    ensures EncEntries(xs[i..]) == EncEntry(xs[i]) + EncEntries(xs[i + 1..])
  {
    hide EncEntry;
    assert xs[i..][1..] == xs[i + 1..];
  }

  lemma LabelsFrom(ls: seq<Label>, i: nat)
    requires i < |ls|
    ensures EncLabels(ls[i..]) == EncStr(ls[i].key) + EncStr(ls[i].val) + EncLabels(ls[i + 1..])
  {
    hide EncStr;
    assert ls[i..][1..] == ls[i + 1..];
  }

  method WriteStMarker(out: Bytes, st: i64, firstSt: i64, prevSt: i64) returns (r: Bytes)
    ensures r == out + EncSt(st, firstSt, prevSt)
  {
    hide ZigZagVarint, ToI64;
    if st == 0 {
      r := out + [ST_NO];
    } else if st == prevSt {
      r := out + [ST_SAME];
    } else {
      r := out + [ST_EXPLICIT];
      r := AppendVarint(r, ToI64(st - firstSt));
    }
  }

  lemma FourInOrder(out: Bytes, a: Bytes, b: Bytes, c: Bytes, d: Bytes)
    ensures out + a + b + c + d == out + (a + b + c + d)
  {
  }

  /** The first sample, with its own times. */
  method AppendFirst(out: Bytes, s: RefSample) returns (r: Bytes)
    ensures r == out + EncFirst(s)
  {
    hide ZigZagVarint, ToI64, ToBe;
    FourInOrder(out, ZigZagVarint(ToI64(s.ref)), ZigZagVarint(s.t), ZigZagVarint(s.st), ToBe(s.v, 8));
    r := AppendVarint(out, ToI64(s.ref));
    r := AppendVarint(r, s.t);
    r := AppendVarint(r, s.st);
    r := AppendBe64(r, s.v);
  }

  /** A later sample, by its differences. */
  method AppendNext(out: Bytes, first: RefSample, prev: RefSample, s: RefSample) returns (r: Bytes)
    ensures r == out + EncNext(first, prev, s)
  {
    hide ZigZagVarint, ToI64, ToBe, EncSt;
    var ref, t := ToI64(ToI64(s.ref) - ToI64(prev.ref)), ToI64(s.t - first.t);
    FourInOrder(out, ZigZagVarint(ref), ZigZagVarint(t), EncSt(s.st, first.st, prev.st), ToBe(s.v, 8));
    r := AppendVarint(out, ref);
    r := AppendVarint(r, t);
    r := WriteStMarker(r, s.st, first.st, prev.st);
    r := AppendBe64(r, s.v);
  }

  method EncodeSamplesRecord(ss: seq<RefSample>) returns (out: Bytes)
    ensures out == EncodeSamples(ss)
  {
    hide EncFirst, EncNext;
    out := [SAMPLES_V2];
    if ss == [] {
      return;
    }
    var first := ss[0];
    out := AppendFirst(out, first);
    for i := 1 to |ss|
      invariant out + EncRest(first, ss[i - 1], ss[i..]) == EncodeSamples(ss)
    {
      RestFrom(first, ss, i);
      Regroup3(out, EncNext(first, ss[i - 1], ss[i]), EncRest(first, ss[i], ss[i + 1..]), []);
      out := AppendNext(out, first, ss[i - 1], ss[i]);
    }
  }

  lemma RestFrom(first: RefSample, ss: seq<RefSample>, i: nat)
    requires 0 < i < |ss|
    ensures EncRest(first, ss[i - 1], ss[i..]) == EncNext(first, ss[i - 1], ss[i]) + EncRest(first, ss[i], ss[i + 1..])
  {
    hide EncNext;
    assert ss[i..][1..] == ss[i + 1..];
  }

  // ---- The decoder -----------------------------------------------------------

  /** A cursor with a sticky error flag. */
  class Decoder {
    const buf: Bytes
    var offset: nat
    var err: bool

    constructor (bytes: Bytes)
      ensures buf == bytes && offset == 0 && !err
    {
      buf, offset, err := bytes, 0, false;
    }

    predicate HasMore()
      reads this
    {
      !err && offset < |buf|
    }

    function Remaining(): nat
      reads this
    {
      if offset <= |buf| then |buf| - offset else 0
    }

    method ReadByte() returns (b: byte)
      modifies this
      ensures if old(offset) < |buf| then b == buf[old(offset)] && offset == old(offset) + 1 && err == old(err)
              else b == 0 && offset == old(offset) && err
    {
      if offset >= |buf| {
        err := true;
        return 0;
      }
      b := buf[offset];
      offset := offset + 1;
    }

    method ReadBe64() returns (v: u64)
      requires offset <= |buf|
      modifies this
      ensures match TakeBe64(buf[old(offset)..])
        case Some((x, n)) => v == x && offset == old(offset) + n && err == old(err)
        case None => v == 0 && offset == old(offset) && err
    {
      hide BeValue;
      if offset + 8 > |buf| {
        err := true;
        return 0;
      }
      assert buf[offset..][..8] == buf[offset..offset + 8];
      BeBound(buf[offset..offset + 8]);
      v := BeValue(buf[offset..offset + 8]);
      offset := offset + 8;
    }

    method ReadUvarint() returns (v: nat)
      requires offset <= |buf|
      modifies this
      ensures match TakeUvarint(buf[old(offset)..])
        case Some((x, n)) => v == x && offset == old(offset) + n && err == old(err)
        case None => v == 0 && offset == old(offset) && err
    {
      hide DecodeUvarint;
      var r := Varint.ReadUvarint(buf[offset..]);
      if r.Err? {
        err := true;
        return 0;
      }
      offset := offset + r.value.1;
      v := r.value.0;
    }

    method ReadVarint() returns (v: i64)
      requires offset <= |buf|
      modifies this
      ensures match TakeVarint(buf[old(offset)..])
        case Some((x, n)) => v == x && offset == old(offset) + n && err == old(err)
        case None => v == 0 && offset == old(offset) && err
    {
      hide DecodeVarint;
      var r := Varint.ReadVarint(buf[offset..]);
      if r.Err? {
        err := true;
        return 0;
      }
      offset := offset + r.value.1;
      v := r.value.0;
    }

    method ReadStr() returns (s: Str)
      requires offset <= |buf|
      modifies this
      ensures offset <= |buf| && (old(err) ==> err)
      ensures !old(err) ==> match TakeStr(buf[old(offset)..])
        case Some((x, n)) => s == x && offset == old(offset) + n && !err
        case None => err
    {
      hide TakeUvarint;
      var n := ReadUvarint();
      if err {
        return [];
      }
      if offset + n > |buf| {
        err := true;
        return [];
      }
      s := buf[offset..offset + n];
      offset := offset + n;
    }
  }

  /** A list of decoded values in front of whatever decoding the rest gives. */
  function Before<T>(xs: seq<T>, r: Result<seq<T>, RecordError>): Result<seq<T>, RecordError> {
    match r case Err(e) => Err(e) case Ok(ys) => Ok(xs + ys)
  }

  lemma BeforeSnoc<T>(xs: seq<T>, x: T, r: Result<seq<T>, RecordError>)
    ensures Before(xs, Before([x], r)) == Before(xs + [x], r)
  {
    if r.Ok? {
      assert xs + ([x] + r.value) == xs + [x] + r.value;
    }
  }

  /** Labels in front of whatever reading the rest of the labels gives. */
  function LabelsBefore(ls: seq<Label>, k: nat, r: Option<(seq<Label>, nat)>): Option<(seq<Label>, nat)> {
    match r case None => None case Some((more, n)) => Some((ls + more, k + n))
  }

  lemma LabelsStep(buf: Bytes, count: nat, ls: seq<Label>, k: nat)
    requires count > 0 && k <= |buf|
    ensures match TakeLabel(buf[k..])
      case None => LabelsBefore(ls, k, TakeLabels(buf[k..], count)) == None
      case Some((l, n)) => (
        && k + n <= |buf|
        && LabelsBefore(ls, k, TakeLabels(buf[k..], count)) == LabelsBefore(ls + [l], k + n, TakeLabels(buf[k + n..], count - 1)))
  {
    hide TakeLabel;
    match TakeLabel(buf[k..])
    case None =>
    case Some((l, n)) =>
      assert buf[k..][n..] == buf[k + n..];
      match TakeLabels(buf[k + n..], count - 1)
      case None =>
      case Some((more, _)) => assert ls + ([l] + more) == ls + [l] + more;
  }

  method ReadLabel(d: Decoder) returns (l: Label)
    requires d.offset <= |d.buf| && !d.err
    modifies d
    ensures d.offset <= |d.buf|
    ensures match TakeLabel(d.buf[old(d.offset)..])
      case Some((x, n)) => l == x && d.offset == old(d.offset) + n && !d.err
      case None => d.err
  {
    hide TakeStr;
    ghost var off := d.offset;
    var name := d.ReadStr();
    if !d.err {
      assert d.buf[off..][d.offset - off..] == d.buf[d.offset..];
    }
    var value := d.ReadStr();
    l := Entry(name, value);
  }

  method DecodeSeriesRecord(rec: Bytes) returns (r: Result<seq<RefSeries>, RecordError>)
    ensures r == DecodeSeries(rec)
  {
    hide TakeEntry;
    var d := new Decoder(rec);
    var t := d.ReadByte();
    if t != SERIES {
      return Err(InvalidType);
    }
    var out: seq<RefSeries> := [];
    assert Before([], TakeEntries(rec[1..])) == TakeEntries(rec[1..]) by {
      assert TakeEntries(rec[1..]).Ok? ==> [] + TakeEntries(rec[1..]).value == TakeEntries(rec[1..]).value;
    }
    while d.HasMore()
      invariant 0 < d.offset <= |rec| && !d.err
      invariant Before(out, TakeEntries(rec[d.offset..])) == DecodeSeries(rec)
      decreases |rec| - d.offset
    {
      ghost var off := d.offset;
      var x := ReadEntry(d);
      if d.err {
        return Err(RecordError.UnexpectedEnd);
      }
      assert rec[off..][d.offset - off..] == rec[d.offset..];
      BeforeSnoc(out, x, TakeEntries(rec[d.offset..]));
      out := out + [x];
    }
    if d.err {
      return Err(RecordError.UnexpectedEnd);
    }
    if d.Remaining() != 0 {
      return Err(TrailingBytes);
    }
    assert rec[d.offset..] == [] && out + [] == out;
    return Ok(out);
  }

  /** One series entry: its reference, then its labels one by one until an error. */
  method ReadEntry(d: Decoder) returns (x: RefSeries)
    requires d.offset <= |d.buf| && !d.err
    modifies d
    ensures d.offset <= |d.buf|
    ensures match TakeEntry(d.buf[old(d.offset)..])
      case Some((y, n)) => x == y && d.offset == old(d.offset) + n && !d.err
      case None => d.err
  {
    hide TakeBe64, TakeUvarint, TakeLabels;
    ghost var rest, off := d.buf[d.offset..], d.offset;
    var ref := d.ReadBe64();
    assert rest[d.offset - off..] == d.buf[d.offset..];
    var count := d.ReadUvarint();
    assert rest[d.offset - off..] == d.buf[d.offset..];
    var labels := ReadLabels(d, count);
    x := RefSeries(ref, labels);
  }

  /** Labels one by one until an error. */
  method ReadLabels(d: Decoder, count: nat) returns (labels: seq<Label>)
    requires d.offset <= |d.buf|
    modifies d
    ensures d.offset <= |d.buf| && (old(d.err) ==> d.err)
    ensures !old(d.err) ==> match TakeLabels(d.buf[old(d.offset)..], count)
      case Some((ls, n)) => labels == ls && d.offset == old(d.offset) + n && !d.err
      case None => d.err
  {
    hide TakeLabel, TakeLabels;
    ghost var from := d.offset;
    ghost var fields := d.buf[from..];
    labels := [];
    StartLabels(fields, count);
    for i := 0 to count
      invariant from <= d.offset <= |d.buf| && d.err == old(d.err)
      invariant LabelsBefore(labels, d.offset - from, TakeLabels(fields[d.offset - from..], count - i))
        == TakeLabels(fields, count)
    {
      if d.err {
        var name := d.ReadStr();
        var value := d.ReadStr();
        return;
      }
      ghost var k := d.offset - from;
      LabelsStep(fields, count - i, labels, k);
      assert fields[k..] == d.buf[d.offset..];
      var l := ReadLabel(d);
      if d.err {
        return;
      }
      labels := labels + [l];
    }
    EndLabels(fields, d.offset - from);
    assert labels + [] == labels;
  }

  lemma StartLabels(fields: Bytes, count: nat)
    ensures LabelsBefore([], 0, TakeLabels(fields[0..], count)) == TakeLabels(fields, count)
  {
    hide TakeLabels;
    assert fields[0..] == fields;
    match TakeLabels(fields, count)
    case None =>
    case Some((ls, _)) => assert [] + ls == ls;
  }

  lemma EndLabels(fields: Bytes, k: nat)
    requires k <= |fields|
    ensures TakeLabels(fields[k..], 0) == Some(([], 0))
  {
  }

  /** The start-time marker and what follows it. */
  method ReadSt(d: Decoder, firstSt: i64, prevSt: i64) returns (r: Result<i64, RecordError>)
    requires d.offset <= |d.buf| && !d.err
    modifies d
    ensures old(d.offset) <= d.offset <= |d.buf|
    ensures match TakeSt(d.buf[old(d.offset)..], firstSt, prevSt)
      case Ok((st, n)) => r == Ok(st) && d.offset == old(d.offset) + n && !d.err
      case Err(UnexpectedEnd) => r.Ok? ==> d.err
      case Err(e) => r == Err(e)
    ensures r.Err? ==> TakeSt(d.buf[old(d.offset)..], firstSt, prevSt) == Err(r.error)
  {
    hide TakeVarint, ToI64;
    ghost var off := d.offset;
    var marker := d.ReadByte();
    if d.err {
      return Err(RecordError.UnexpectedEnd);
    }
    assert d.buf[off..][1..] == d.buf[off + 1..];
    if marker == ST_NO {
      return Ok(0);
    } else if marker == ST_SAME {
      return Ok(prevSt);
    } else if marker == ST_EXPLICIT {
      var delta := d.ReadVarint();
      return Ok(ToI64(firstSt + delta));
    } else {
      return Err(StMarkerInvalid);
    }
  }

  method ReadFirst(d: Decoder) returns (s: RefSample)
    requires d.offset <= |d.buf| && !d.err
    modifies d
    ensures d.offset <= |d.buf|
    ensures match TakeFirst(d.buf[old(d.offset)..])
      case Ok((x, n)) => s == x && d.offset == old(d.offset) + n && !d.err
      case Err(e) => e == RecordError.UnexpectedEnd && d.err
  {
    hide TakeVarint, TakeBe64;
    ghost var rest, off := d.buf[d.offset..], d.offset;
    var ref := d.ReadVarint();
    assert rest[d.offset - off..] == d.buf[d.offset..];
    var t := d.ReadVarint();
    assert rest[d.offset - off..] == d.buf[d.offset..];
    var st := d.ReadVarint();
    assert rest[d.offset - off..] == d.buf[d.offset..];
    var v := d.ReadBe64();
    s := RefSample(ToU64(ref), t, st, v);
  }

  method ReadNext(d: Decoder, firstT: i64, firstSt: i64, prev: RefSample) returns (r: Result<RefSample, RecordError>)
    requires d.offset <= |d.buf| && !d.err
    modifies d
    ensures match TakeNext(firstT, firstSt, prev, d.buf[old(d.offset)..])
      case Ok((s, n)) => r == Ok(s) && d.offset == old(d.offset) + n && !d.err
      case Err(e) => r == Err(e)
  {
    hide TakeVarint, TakeBe64, TakeSt, ToI64;
    ghost var rest, off := d.buf[d.offset..], d.offset;
    var ref := d.ReadVarint();
    assert rest[d.offset - off..] == d.buf[d.offset..];
    var t := d.ReadVarint();
    assert rest[d.offset - off..] == d.buf[d.offset..];
    if d.err {
      var skipped := d.ReadByte();
      return Err(RecordError.UnexpectedEnd);
    }
    var st := ReadSt(d, firstSt, prev.st);
    if st.Err? {
      return Err(st.error);
    }
    assert rest[d.offset - off..] == d.buf[d.offset..];
    var v := d.ReadBe64();
    if d.err {
      return Err(RecordError.UnexpectedEnd);
    }
    return Ok(RefSample(ToU64(ToI64(ToI64(prev.ref) + ref)), ToI64(firstT + t), st.value, v));
  }

  method DecodeSamplesRecord(rec: Bytes) returns (r: Result<seq<RefSample>, RecordError>)
    ensures r == DecodeSamples(rec)
  {
    hide TakeFirst, TakeNext;
    var d := new Decoder(rec);
    var tag := d.ReadByte();
    if tag != SAMPLES_V2 {
      return Err(InvalidType);
    }
    if !d.HasMore() {
      return Ok([]);
    }
    var first := ReadFirst(d);
    if d.err {
      return Err(RecordError.UnexpectedEnd);
    }
    var out := [first];
    while d.HasMore()
      invariant 0 < d.offset <= |rec| && !d.err && out != []
      invariant Before(out, TakeRest(first.t, first.st, out[|out| - 1], rec[d.offset..])) == DecodeSamples(rec)
      decreases |rec| - d.offset
    {
      ghost var off := d.offset;
      var s := ReadNext(d, first.t, first.st, out[|out| - 1]);
      if s.Err? {
        return Err(s.error);
      }
      assert rec[off..][d.offset - off..] == rec[d.offset..];
      BeforeSnoc(out, s.value, TakeRest(first.t, first.st, s.value, rec[d.offset..]));
      out := out + [s.value];
    }
    if d.err {
      return Err(RecordError.UnexpectedEnd);
    }
    if d.Remaining() != 0 {
      return Err(TrailingBytes);
    }
    assert rec[d.offset..] == [] && out + [] == out;
    return Ok(out);
  }
}
