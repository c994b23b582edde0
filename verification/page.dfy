/** Page framing of the write-ahead log. */
module Pages {
  import opened Words
  import opened BigEndian
  import opened Wrappers
  import opened Crc32c

  const PAGE_SIZE := 32768
  const HEADER := 7
  const MAX_FRAGMENT := PAGE_SIZE - HEADER

  const FULL: byte := 1
  const FIRST: byte := 2
  const MIDDLE: byte := 3
  const LAST: byte := 4

  datatype WalError =
    | EndOfStream | UnexpectedEnd | InvalidRecType | CrcMismatch | UnexpectedFirst | UnexpectedMiddle | TornRecord
    | UnsupportedCompression

  type Bytes = seq<byte>

  // ---- What one record becomes -----------------------------------------------

  function Zeros(n: nat): (z: Bytes)
    ensures |z| == n && forall i :: 0 <= i < n ==> z[i] == 0
  {
    seq(n, _ => 0)
  }

  function FragHeader(t: byte, data: Bytes): (h: Bytes)
    ensures |h| == HEADER
  {
    [t] + ToBe(|data|, 2) + ToBe(Compute(data), 4)
  }

  function Frag(t: byte, data: Bytes): (f: Bytes)
    ensures |f| == HEADER + |data|
  {
    FragHeader(t, data) + data
  }

  /** The rest of a record whose earlier part filled the page before. */
  function Continue(body: Bytes): (f: Bytes)
    requires body != []
    ensures |f| > 0
  {
    if |body| <= MAX_FRAGMENT then Frag(LAST, body)
    else Frag(MIDDLE, body[..MAX_FRAGMENT]) + Continue(body[MAX_FRAGMENT..])
  }

  /** Bytes of padding in front of a record at page offset `off`. */
  function Padding(off: nat): nat
    requires off < PAGE_SIZE
  {
    if PAGE_SIZE - off < HEADER then PAGE_SIZE - off else 0
  }

  /** The bytes a record adds at page offset `off`. With room for a header and nothing else,
      an empty first fragment goes out and the record starts over on the next page. */
  function Frame(off: nat, body: Bytes): (f: Bytes)
    requires off < PAGE_SIZE
    ensures |f| > 0
    decreases off
  {
    var left := PAGE_SIZE - off;
    if left < HEADER then Zeros(left) + Frame(0, body)
    else if |body| <= left - HEADER then Frag(FULL, body)
    else if left == HEADER then Frag(FIRST, []) + Frame(0, body)
    else Frag(FIRST, body[..left - HEADER]) + Continue(body[left - HEADER..])
  }

  /** A non-empty body that meets exactly one header's worth of room. */
  predicate Hazard(off: nat, body: Bytes) {
    off == PAGE_SIZE - HEADER && body != []
  }

  // ---- What the reader makes of a buffer -------------------------------------

  function PadEnd(buf: Bytes, off: nat): (e: nat)
    requires off < |buf|
    ensures off < e <= |buf|
  {
    var e := off + (PAGE_SIZE - off % PAGE_SIZE);
    if e < |buf| then e else |buf|
  }

  /** The fragment at `off`: its type, its body and where it ends; or the error and where the
      reader stands then. */
  function Parse(buf: Bytes, off: nat): (r: Result<(nat, Bytes, nat), (WalError, nat)>)
    requires off < |buf|
    ensures r.Ok? ==> off < r.value.2 <= |buf|
  {
    if off + HEADER > |buf| then Err((UnexpectedEnd, off))
    else if And(buf[off], 0x18) != 0 then Err((UnsupportedCompression, off))
    else if And(buf[off], 7) > 4 then Err((InvalidRecType, off))
    else
      var start := off + HEADER;
      var len := BeValue(buf[off + 1..off + 3]);
      if start + len > |buf| then Err((UnexpectedEnd, start))
      else if Compute(buf[start..start + len]) != BeValue(buf[off + 3..off + 7]) then Err((CrcMismatch, start + len))
      else Ok((And(buf[off], 7), buf[start..start + len], start + len))
  }

  /** One record from `off` on, with `acc` assembled so far when `open`; and where reading
      stopped. */
  function Next(buf: Bytes, off: nat, open: bool, acc: Bytes): (r: (Result<Bytes, WalError>, nat))
    ensures r.0.Ok? ==> off < r.1 <= |buf|
    decreases |buf| - off
  {
    if off >= |buf| then (Err(if open then TornRecord else EndOfStream), off)
    else if buf[off] == 0 then
      var e := PadEnd(buf, off);
      if exists i :: off <= i < e && buf[i] != 0 then (Err(InvalidRecType), off)
      else Next(buf, e, open, acc)
    else
      match Parse(buf, off)
      case Err((e, at)) => (Err(e), at)
      case Ok((t, data, end)) =>
        if t == FULL then (if open then Err(UnexpectedFirst) else Ok(data), end)
        else if t == FIRST then (if open then (Err(UnexpectedFirst), end) else Next(buf, end, true, data))
        else if t == MIDDLE then (if !open then (Err(UnexpectedMiddle), end) else Next(buf, end, true, acc + data))
        else if t == LAST then (if !open then Err(UnexpectedMiddle) else Ok(acc + data), end)
        else (Err(InvalidRecType), end)
  }

  /** Every record from `off` on, and the error that ends them. */
  function ReadAll(buf: Bytes, off: nat): (r: (seq<Bytes>, WalError))
    decreases |buf| - off
  {
    match Next(buf, off, false, [])
    case (Err(e), _) => ([], e)
    case (Ok(rec), end) => var (recs, e) := ReadAll(buf, end); ([rec] + recs, e)
  }

  // ---- One fragment ----------------------------------------------------------

  lemma TypeBits(t: byte)
    requires 1 <= t <= 4
    ensures And(t, 0x18) == 0 && And(t, 7) == t
  {
    assert Pow2(3) == 8 && Scale(3, 3) == 0x18;
    hide *;
    AndAbove(t, 3, 3);
    AndMask(t, 3);
    LowSmall(t, 3);
  }

  /** The fields of a fragment, wherever it stands in a buffer. */
  lemma FragFields(pre: Bytes, t: byte, data: Bytes, post: Bytes, written: Bytes)
    requires 1 <= t <= 4 && |data| <= MAX_FRAGMENT && |written| == |data|
    ensures var buf, off := pre + (FragHeader(t, data) + written) + post, |pre|;
      && off + HEADER + |data| <= |buf|
      && buf[off] == t
      && BeValue(buf[off + 1..off + 3]) == |data|
      && BeValue(buf[off + 3..off + 7]) == Compute(data)
      && buf[off + HEADER..off + HEADER + |data|] == written
  {
    hide FragHeader, ToBe, BeValue, Compute;
    HeaderFields(t, data);
    var h := FragHeader(t, data);
    var buf, off := pre + (h + written) + post, |pre|;
    assert buf[off..off + HEADER] == h;
    assert buf[off + 1..off + 3] == h[1..3];
    assert buf[off + 3..off + 7] == h[3..7];
  }

  lemma HeaderFields(t: byte, data: Bytes)
    requires |data| <= MAX_FRAGMENT
    ensures FragHeader(t, data)[0] == t
    ensures BeValue(FragHeader(t, data)[1..3]) == |data|
    ensures BeValue(FragHeader(t, data)[3..7]) == Compute(data)
  {
    Pow2Values();
    hide ToBe, BeValue, Compute, Pow2;
    BeRoundTrip(|data|, 2);
    BeRoundTrip(Compute(data), 4);
    var h := FragHeader(t, data);
    assert h[1..3] == ToBe(|data|, 2) && h[3..7] == ToBe(Compute(data), 4);
  }

  lemma ParseIntact(pre: Bytes, t: byte, data: Bytes, post: Bytes)
    requires 1 <= t <= 4 && |data| <= MAX_FRAGMENT
    ensures var buf := pre + Frag(t, data) + post;
      buf[|pre|] == t && Parse(buf, |pre|) == Ok((t, data, |pre| + HEADER + |data|))
  {
    hide ToBe, BeValue, Compute, And, FragHeader;
    FragFields(pre, t, data, post, data);
    TypeBits(t);
  }

  /** Reading an intact fragment. */
  lemma FragRead(pre: Bytes, t: byte, data: Bytes, post: Bytes, open: bool, acc: Bytes)
    requires 1 <= t <= 4 && |data| <= MAX_FRAGMENT
    ensures var buf, end := pre + Frag(t, data) + post, |pre| + HEADER + |data|;
      Next(buf, |pre|, open, acc) ==
        if t == FULL then (if open then Err(UnexpectedFirst) else Ok(data), end)
        else if t == FIRST then (if open then (Err(UnexpectedFirst), end) else Next(buf, end, true, data))
        else if t == MIDDLE then (if !open then (Err(UnexpectedMiddle), end) else Next(buf, end, true, acc + data))
        else (if !open then Err(UnexpectedMiddle) else Ok(acc + data), end)
  {
    hide Parse, Frag;
    ParseIntact(pre, t, data, post);
  }

  /** A fragment whose body was changed inside four consecutive bytes is always reported. */
  lemma FragDamaged(pre: Bytes, t: byte, data: Bytes, changed: Bytes, k: nat, post: Bytes, open: bool, acc: Bytes)
    requires 1 <= t <= 4 && |data| <= MAX_FRAGMENT && DifferWithinFour(data, changed, k)
    ensures Next(pre + (FragHeader(t, data) + changed) + post, |pre|, open, acc).0 == Err(CrcMismatch)
  {
    hide ToBe, BeValue, Compute, And, FragHeader;
    FragFields(pre, t, data, post, changed);
    TypeBits(t);
    BurstDetected(data, changed, k);
  }

  lemma ParseCut(pre: Bytes, t: byte, data: Bytes, d: nat)
    requires 1 <= t <= 4 && |data| <= MAX_FRAGMENT && 0 < d < HEADER + |data|
    ensures var buf := pre + Frag(t, data)[..d];
      buf[|pre|] == t && Parse(buf, |pre|).Err? && Parse(buf, |pre|).error.0 == UnexpectedEnd
  {
    hide ToBe, BeValue, Compute, And, FragHeader;
    FragFields(pre, t, data, [], data);
    TypeBits(t);
    var whole, buf, off := pre + (FragHeader(t, data) + data) + [], pre + Frag(t, data)[..d], |pre|;
    assert buf == whole[..off + d];
    assert buf[off] == t;
    if d >= HEADER {
      assert buf[off + 1..off + 3] == whole[off + 1..off + 3];
    }
  }

  /** A fragment cut short, in its header or in its body. */
  lemma FragCut(pre: Bytes, t: byte, data: Bytes, d: nat, open: bool, acc: Bytes)
    requires 1 <= t <= 4 && |data| <= MAX_FRAGMENT && 0 < d < HEADER + |data|
    ensures Next(pre + Frag(t, data)[..d], |pre|, open, acc).0 == Err(UnexpectedEnd)
  {
    hide Parse, Frag;
    ParseCut(pre, t, data, d);
  }

  // ---- One record ------------------------------------------------------------

  lemma Glue(a: Bytes, b: Bytes, c: Bytes, d: Bytes)
    ensures a + (b + c) + d == a + b + (c + d) == (a + b) + c + d
  {
  }

  lemma {:induction false} ContinueRead(pre: Bytes, body: Bytes, post: Bytes, acc: Bytes)
    requires body != []
    ensures Next(pre + Continue(body) + post, |pre|, true, acc) == (Ok(acc + body), |pre| + |Continue(body)|)
    decreases |body|
  {
    hide Next, Frag;
    if |body| <= MAX_FRAGMENT {
      FragRead(pre, LAST, body, post, true, acc);
    } else {
      var a, rest := body[..MAX_FRAGMENT], body[MAX_FRAGMENT..];
      var f := Frag(MIDDLE, a);
      Glue(pre, f, Continue(rest), post);
      FragRead(pre, MIDDLE, a, Continue(rest) + post, true, acc);
      ContinueRead(pre + f, rest, post, acc + a);
      assert acc + a + rest == acc + body;
    }
  }

  /** Zero bytes up to the page end are skipped. */
  lemma SkipPadding(pre: Bytes, n: nat, post: Bytes, open: bool, acc: Bytes)
    requires 0 < n && n <= PAGE_SIZE - |pre| % PAGE_SIZE
    requires n == PAGE_SIZE - |pre| % PAGE_SIZE || post == []
    ensures Next(pre + Zeros(n) + post, |pre|, open, acc) == Next(pre + Zeros(n) + post, |pre| + n, open, acc)
  {
    hide Compute, And, BeValue;
    var buf, off := pre + Zeros(n) + post, |pre|;
    assert buf[off] == 0;
    assert PadEnd(buf, off) == off + n;
    assert forall i :: off <= i < off + n ==> buf[i] == 0;
  }

  /** A framed record is read back, whatever stands before and after it. */
  lemma {:induction false} RecordRead(pre: Bytes, body: Bytes, post: Bytes)
    requires !Hazard(|pre| % PAGE_SIZE, body)
    ensures Next(pre + Frame(|pre| % PAGE_SIZE, body) + post, |pre|, false, [])
         == (Ok(body), |pre| + |Frame(|pre| % PAGE_SIZE, body)|)
    decreases |pre| % PAGE_SIZE
  {
    hide Next, Frag, Continue;
    var off := |pre| % PAGE_SIZE;
    var left := PAGE_SIZE - off;
    if left < HEADER {
      PageAfter(|pre|, left);
      Glue(pre, Zeros(left), Frame(0, body), post);
      SkipPadding(pre, left, Frame(0, body) + post, false, []);
      RecordRead(pre + Zeros(left), body, post);
    } else if |body| <= left - HEADER {
      FragRead(pre, FULL, body, post, false, []);
    } else {
      var a, rest := body[..left - HEADER], body[left - HEADER..];
      var f := Frag(FIRST, a);
      Glue(pre, f, Continue(rest), post);
      FragRead(pre, FIRST, a, Continue(rest) + post, false, []);
      ContinueRead(pre + f, rest, post, a);
      assert a + rest == body;
    }
  }

  lemma PageAfter(n: nat, left: nat)
    requires left == PAGE_SIZE - n % PAGE_SIZE
    ensures (n + left) % PAGE_SIZE == 0
  {
    assert n + left == (n / PAGE_SIZE + 1) * PAGE_SIZE;
  }

  /** The record the framing loses: an empty first fragment, then a second beginning. */
  lemma HazardRead(pre: Bytes, body: Bytes, post: Bytes)
    requires Hazard(|pre| % PAGE_SIZE, body)
    ensures Next(pre + Frame(|pre| % PAGE_SIZE, body) + post, |pre|, false, []).0 == Err(UnexpectedFirst)
  {
    hide Next, Frag, Continue;
    var f, again := Frag(FIRST, []), Frame(0, body);
    assert Frame(|pre| % PAGE_SIZE, body) == f + again;
    Glue(pre, f, again, post);
    FragRead(pre, FIRST, [], again + post, false, []);
    SecondStart(pre + f, body, post);
  }

  lemma SecondStart(pre: Bytes, body: Bytes, post: Bytes)
    ensures Next(pre + Frame(0, body) + post, |pre|, true, []).0 == Err(UnexpectedFirst)
  {
    hide Next, Frag, Continue;
    if |body| <= MAX_FRAGMENT {
      FragRead(pre, FULL, body, post, true, []);
    } else {
      var a, rest := body[..MAX_FRAGMENT], body[MAX_FRAGMENT..];
      Glue(pre, Frag(FIRST, a), Continue(rest), post);
      FragRead(pre, FIRST, a, Continue(rest) + post, true, []);
    }
  }

  // ---- Whole histories -------------------------------------------------------

  datatype PageOp = Log(body: Bytes) | ClosePage

  function PagePad(n: nat): nat {
    if n % PAGE_SIZE == 0 then 0 else PAGE_SIZE - n % PAGE_SIZE
  }

  /** What one call appends to a buffer of `n` bytes. */
  function Emitted(n: nat, op: PageOp): Bytes {
    match op
    case Log(body) => Frame(n % PAGE_SIZE, body)
    case ClosePage => Zeros(PagePad(n))
  }

  function Written(ops: seq<PageOp>): Bytes {
    if ops == [] then []
    else var w := Written(ops[..|ops| - 1]); w + Emitted(|w|, ops[|ops| - 1])
  }

  function Bodies(ops: seq<PageOp>): seq<Bytes> {
    if ops == [] then []
    else Bodies(ops[..|ops| - 1]) + (match ops[|ops| - 1] case Log(b) => [b] case ClosePage => [])
  }

  predicate HazardFree(ops: seq<PageOp>) {
    ops == [] ||
    var init, last := ops[..|ops| - 1], ops[|ops| - 1];
    HazardFree(init) && (last.Log? ==> !Hazard(|Written(init)| % PAGE_SIZE, last.body))
  }

  function Prefixed(recs: seq<Bytes>, r: (seq<Bytes>, WalError)): (seq<Bytes>, WalError) {
    (recs + r.0, r.1)
  }

  /** Reading a buffer that starts with a hazard-free history gives its records, then whatever
      the rest of the buffer gives. */
  lemma {:induction false} HistoryRead(ops: seq<PageOp>, post: Bytes)
    requires HazardFree(ops)
    ensures ReadAll(Written(ops) + post, 0) == Prefixed(Bodies(ops), ReadAll(Written(ops) + post, |Written(ops)|))
    decreases |ops|
  {
    hide Next, Frame, ReadAll;
    if ops == [] {
      var r := ReadAll([] + post, 0);
      assert [] + r.0 == r.0;
    } else {
      var init, last := ops[..|ops| - 1], ops[|ops| - 1];
      var w := Written(init);
      var e := Emitted(|w|, last);
      var buf := w + e + post;
      assert w + (e + post) == buf;
      HistoryRead(init, e + post);
      if last.Log? {
        RecordRead(w, last.body, post);
        ReadOne(buf, |w|, last.body, |w + e|);
        PrefixedTwice(Bodies(init), [last.body], ReadAll(buf, |w + e|));
      } else if e != [] {
        SkipPadding(w, PagePad(|w|), post, false, []);
        ReadSkips(buf, |w|, |w + e|);
      }
      assert last.ClosePage? ==> Bodies(ops) == Bodies(init);
      assert e == [] ==> w + e == w;
    }
  }

  lemma ReadOne(buf: Bytes, off: nat, rec: Bytes, end: nat)
    requires Next(buf, off, false, []) == (Ok(rec), end)
    ensures ReadAll(buf, off) == Prefixed([rec], ReadAll(buf, end))
  {
    hide Next;
  }

  lemma ReadSkips(buf: Bytes, off: nat, end: nat)
    requires Next(buf, off, false, []) == Next(buf, end, false, [])
    ensures ReadAll(buf, off) == ReadAll(buf, end)
  {
    hide Next;
  }

  lemma PrefixedTwice(a: seq<Bytes>, b: seq<Bytes>, r: (seq<Bytes>, WalError))
    ensures Prefixed(a, Prefixed(b, r)) == Prefixed(a + b, r)
  {
    assert a + (b + r.0) == a + b + r.0;
  }

  lemma AtEnd(buf: Bytes)
    ensures ReadAll(buf, |buf|) == ([], EndOfStream)
  {
  }

  /** The framing round trip and its exact condition: a history is read back, record by
      record and then a clean end, exactly when no record met the seven-byte room. */
  lemma RoundTripIffHazardFree(ops: seq<PageOp>)
    ensures ReadAll(Written(ops), 0) == (Bodies(ops), EndOfStream) <==> HazardFree(ops)
  {
    hide Next, Frame, ReadAll, Written, Bodies, HazardFree;
    assert Written(ops) + [] == Written(ops);
    if HazardFree(ops) {
      HistoryRead(ops, []);
      AtEnd(Written(ops));
      assert Bodies(ops) + [] == Bodies(ops);
    } else {
      FirstHazard(ops, []);
    }
  }

  /** The condition is not idle: after a first record of 32754 bytes, which leaves just seven
      bytes of its page, no further record that holds anything is read back. */
  lemma HazardReached(a: Bytes, b: Bytes)
    requires |a| == MAX_FRAGMENT - HEADER && b != []
    ensures var ops := [Log(a), Log(b)];
      !HazardFree(ops) && ReadAll(Written(ops), 0) != (Bodies(ops), EndOfStream)
  {
    hide ReadAll, Bodies, Written, HazardFree;
    FirstWritten(a);
    HazardousLast([Log(a)], b);
    assert [Log(a)] + [Log(b)] == [Log(a), Log(b)];
    RoundTripIffHazardFree([Log(a), Log(b)]);
  }

  lemma FirstWritten(a: Bytes)
    requires |a| == MAX_FRAGMENT - HEADER
    ensures |Written([Log(a)])| == PAGE_SIZE - HEADER
  {
    hide FragHeader;
    assert [Log(a)][..0] == [] && Written([]) == [];
    assert Frame(0, a) == Frag(FULL, a);
  }

  lemma HazardousLast(ops: seq<PageOp>, b: Bytes)
    requires Hazard(|Written(ops)| % PAGE_SIZE, b)
    ensures !HazardFree(ops + [Log(b)])
  {
    hide Hazard, Written;
    assert (ops + [Log(b)])[..|ops|] == ops;
  }

  /** With a hazard, reading stops at it. */
  lemma {:induction false} FirstHazard(ops: seq<PageOp>, post: Bytes)
    requires !HazardFree(ops)
    ensures ReadAll(Written(ops) + post, 0).1 == UnexpectedFirst && ReadAll(Written(ops) + post, 0).0 <= Bodies(ops)
    decreases |ops|
  {
    hide Next, Frame, ReadAll;
    var init, last := ops[..|ops| - 1], ops[|ops| - 1];
    var w := Written(init);
    var e := Emitted(|w|, last);
    assert w + (e + post) == w + e + post;
    if HazardFree(init) {
      HistoryRead(init, e + post);
      HazardRead(w, last.body, post);
      ReadFails(w + e + post, |w|);
      assert Bodies(init) + [] == Bodies(init);
    } else {
      FirstHazard(init, e + post);
    }
  }

  lemma ReadFails(buf: Bytes, off: nat)
    requires Next(buf, off, false, []).0.Err?
    ensures ReadAll(buf, off) == ([], Next(buf, off, false, []).0.error)
  {
    hide Next;
  }

  // ---- Truncation ------------------------------------------------------------

  /** What a reader must report for the first `c` bytes of a history. */
  function Truncated(ops: seq<PageOp>, c: nat): (seq<Bytes>, WalError)
    requires c <= |Written(ops)|
  {
    if ops == [] then ([], EndOfStream)
    else
      var init, last := ops[..|ops| - 1], ops[|ops| - 1];
      var n := |Written(init)|;
      if c <= n then Truncated(init, c)
      else if c == |Written(ops)| then (Bodies(ops), EndOfStream)
      else if last.ClosePage? || c - n <= Padding(n % PAGE_SIZE) then (Bodies(init), EndOfStream)
      else (Bodies(init), if c % PAGE_SIZE == 0 then TornRecord else UnexpectedEnd)
  }

  lemma {:induction false} ContinueCut(pre: Bytes, body: Bytes, d: nat, acc: Bytes)
    requires body != [] && d < |Continue(body)| && |pre| % PAGE_SIZE == 0
    ensures Next(pre + Continue(body)[..d], |pre|, true, acc).0
         == Err(if (|pre| + d) % PAGE_SIZE == 0 then TornRecord else UnexpectedEnd)
    decreases |body|
  {
    hide Next, Frag;
    if d == 0 {
      OpenEnd(pre + Continue(body)[..0], acc);
      assert pre + Continue(body)[..0] == pre;
    } else if |body| <= MAX_FRAGMENT {
      FragCut(pre, LAST, body, d, true, acc);
      NotAligned(|pre|, d);
    } else {
      var a, rest := body[..MAX_FRAGMENT], body[MAX_FRAGMENT..];
      var f := Frag(MIDDLE, a);
      assert |f| == PAGE_SIZE;
      if d < PAGE_SIZE {
        assert Continue(body)[..d] == f[..d];
        FragCut(pre, MIDDLE, a, d, true, acc);
        NotAligned(|pre|, d);
      } else {
        var more := Continue(rest)[..d - PAGE_SIZE];
        assert Continue(body)[..d] == f + more;
        assert pre + (f + more) == pre + f + more;
        FragRead(pre, MIDDLE, a, more, true, acc);
        PageOn(|pre|);
        ContinueCut(pre + f, rest, d - PAGE_SIZE, acc + a);
        assert |pre + f| + (d - PAGE_SIZE) == |pre| + d;
      }
    }
  }

  lemma OpenEnd(buf: Bytes, acc: Bytes)
    ensures Next(buf, |buf|, true, acc).0 == Err(TornRecord)
  {
  }

  lemma NotAligned(n: nat, d: nat)
    requires n % PAGE_SIZE == 0 && 0 < d < PAGE_SIZE
    ensures (n + d) % PAGE_SIZE != 0
  {
  }

  lemma PageOn(n: nat)
    requires n % PAGE_SIZE == 0
    ensures (n + PAGE_SIZE) % PAGE_SIZE == 0
  {
  }

  /** A record cut after its padding: at an inner fragment boundary it is torn, elsewhere its
      end is missing. */
  lemma RecordCut(pre: Bytes, body: Bytes, d: nat)
    requires !Hazard(|pre| % PAGE_SIZE, body)
    requires Padding(|pre| % PAGE_SIZE) < d < |Frame(|pre| % PAGE_SIZE, body)|
    ensures Next(pre + Frame(|pre| % PAGE_SIZE, body)[..d], |pre|, false, []).0
         == Err(if (|pre| + d) % PAGE_SIZE == 0 then TornRecord else UnexpectedEnd)
    decreases |pre| % PAGE_SIZE
  {
    hide Next, Frag, Continue;
    var off := |pre| % PAGE_SIZE;
    var left := PAGE_SIZE - off;
    if left < HEADER {
      PageAfter(|pre|, left);
      var more := Frame(0, body)[..d - left];
      assert Frame(off, body)[..d] == Zeros(left) + more;
      assert pre + (Zeros(left) + more) == pre + Zeros(left) + more;
      SkipPadding(pre, left, more, false, []);
      RecordCut(pre + Zeros(left), body, d - left);
    } else if |body| <= left - HEADER {
      FragCut(pre, FULL, body, d, false, []);
      InsidePage(|pre|, d);
    } else {
      CrossingCut(pre, body, d);
    }
  }

  /** The same for a record that crosses a page. */
  lemma CrossingCut(pre: Bytes, body: Bytes, d: nat)
    requires HEADER < PAGE_SIZE - |pre| % PAGE_SIZE < |body| + HEADER
    requires 0 < d < |Frame(|pre| % PAGE_SIZE, body)|
    ensures Next(pre + Frame(|pre| % PAGE_SIZE, body)[..d], |pre|, false, []).0
         == Err(if (|pre| + d) % PAGE_SIZE == 0 then TornRecord else UnexpectedEnd)
  {
    hide Next, Frag, Continue;
    var left := PAGE_SIZE - |pre| % PAGE_SIZE;
    var a, rest := body[..left - HEADER], body[left - HEADER..];
    var f, frame := Frag(FIRST, a), Frame(|pre| % PAGE_SIZE, body);
    assert |f| == left && frame == f + Continue(rest);
    hide Frame;
    if d < left {
      assert frame[..d] == f[..d];
      FragCut(pre, FIRST, a, d, false, []);
      InsidePage(|pre|, d);
    } else {
      var more := Continue(rest)[..d - left];
      assert frame[..d] == f + more;
      ConcatThree(pre, f, more);
      FragRead(pre, FIRST, a, more, false, []);
      PageAfter(|pre|, left);
      ContinueCut(pre + f, rest, d - left, a);
      assert |pre + f| + (d - left) == |pre| + d;
    }
  }

  lemma InsidePage(n: nat, d: nat)
    requires 0 < d < PAGE_SIZE - n % PAGE_SIZE
    ensures (n + d) % PAGE_SIZE != 0
  {
    DivUnique(n + d, PAGE_SIZE, n / PAGE_SIZE, n % PAGE_SIZE + d);
  }

  /** Only padding of a record is left. */
  lemma PaddingCut(pre: Bytes, body: Bytes, d: nat)
    requires d <= Padding(|pre| % PAGE_SIZE)
    ensures d < |Frame(|pre| % PAGE_SIZE, body)|
    ensures Next(pre + Frame(|pre| % PAGE_SIZE, body)[..d], |pre|, false, []).0 == Err(EndOfStream)
  {
    hide Frag, Continue;
    var off := |pre| % PAGE_SIZE;
    var f := Frame(off, body);
    assert PAGE_SIZE - off < HEADER ==> f == Zeros(PAGE_SIZE - off) + Frame(0, body);
    assert d > 0 ==> f[..d] == Zeros(d);
    ZerosCut(pre, d);
  }

  lemma ZerosCut(pre: Bytes, d: nat)
    requires d <= PAGE_SIZE - |pre| % PAGE_SIZE
    ensures Next(pre + Zeros(d), |pre|, false, []).0 == Err(EndOfStream)
  {
    var buf := pre + Zeros(d);
    if d > 0 {
      assert pre + Zeros(d) + [] == buf;
      SkipPadding(pre, d, [], false, []);
    }
  }

  /** Truncation safety: whatever prefix of the bytes survives, the reader returns exactly the
      records that are complete in it, and the error tells how the prefix ends. */
  lemma {:induction false} TruncationSafety(ops: seq<PageOp>, c: nat)
    requires HazardFree(ops) && c <= |Written(ops)|
    ensures ReadAll(Written(ops)[..c], 0) == Truncated(ops, c)
    decreases |ops|
  {
    hide Next, Frame, ReadAll;
    if ops == [] {
      AtEnd([]);
    } else {
      var init, last := ops[..|ops| - 1], ops[|ops| - 1];
      var w := Written(init);
      var e := Emitted(|w|, last);
      if c <= |w| {
        assert (w + e)[..c] == w[..c];
        TruncationSafety(init, c);
      } else if c == |w + e| {
        assert (w + e)[..c] == w + e && w + e + [] == w + e;
        HistoryRead(ops, []);
        AtEnd(w + e);
        assert Bodies(ops) + [] == Bodies(ops);
      } else {
        var d := c - |w|;
        assert (w + e)[..c] == w + e[..d];
        HistoryRead(init, e[..d]);
        EmittedCut(w, last, d);
        ReadFails(w + e[..d], |w|);
        assert Bodies(init) + [] == Bodies(init);
      }
    }
  }

  lemma EmittedCut(w: Bytes, op: PageOp, d: nat)
    requires 0 < d < |Emitted(|w|, op)|
    requires op.Log? ==> !Hazard(|w| % PAGE_SIZE, op.body)
    ensures Next(w + Emitted(|w|, op)[..d], |w|, false, []).0 == Err(
      if op.ClosePage? || d <= Padding(|w| % PAGE_SIZE) then EndOfStream
      else if (|w| + d) % PAGE_SIZE == 0 then TornRecord else UnexpectedEnd)
  {
    hide Next, Frame;
    if op.ClosePage? {
      assert Zeros(PagePad(|w|))[..d] == Zeros(d);
      ZerosCut(w, d);
    } else if d <= Padding(|w| % PAGE_SIZE) {
      PaddingCut(w, op.body, d);
    } else {
      RecordCut(w, op.body, d);
    }
  }

  /** What survives a cut is always a prefix of what was logged. */
  lemma {:induction false} TruncatedIsPrefix(ops: seq<PageOp>, c: nat)
    requires c <= |Written(ops)|
    ensures Truncated(ops, c).0 <= Bodies(ops)
    decreases |ops|
  {
    if ops != [] && c <= |Written(ops[..|ops| - 1])| {
      TruncatedIsPrefix(ops[..|ops| - 1], c);
    }
  }

  /** A cut through the record the framing loses: nothing of it is read. */
  lemma HazardCut(pre: Bytes, body: Bytes, d: nat)
    requires Hazard(|pre| % PAGE_SIZE, body) && 0 < d < |Frame(|pre| % PAGE_SIZE, body)|
    ensures Next(pre + Frame(|pre| % PAGE_SIZE, body)[..d], |pre|, false, []).0.Err?
  {
    hide Next, Frag, Continue;
    var f, again := Frag(FIRST, []), Frame(0, body);
    assert Frame(|pre| % PAGE_SIZE, body) == f + again;
    if d < HEADER {
      assert (f + again)[..d] == f[..d];
      FragCut(pre, FIRST, [], d, false, []);
    } else {
      var rest := again[..d - HEADER];
      assert (f + again)[..d] == f + rest && pre + (f + rest) == pre + f + rest;
      FragRead(pre, FIRST, [], rest, false, []);
      if d == HEADER {
        assert pre + f + rest == pre + f;
        OpenEnd(pre + f, []);
      } else {
        SecondStartCut(pre + f, body, d - HEADER);
      }
    }
  }

  lemma SecondStartCut(pre: Bytes, body: Bytes, d: nat)
    requires 0 < d < |Frame(0, body)|
    ensures Next(pre + Frame(0, body)[..d], |pre|, true, []).0.Err?
  {
    hide Next, Frag, Continue;
    if |body| <= MAX_FRAGMENT {
      FragCut(pre, FULL, body, d, true, []);
    } else {
      var a, rest := body[..MAX_FRAGMENT], body[MAX_FRAGMENT..];
      var f := Frag(FIRST, a);
      if d < |f| {
        assert (f + Continue(rest))[..d] == f[..d];
        FragCut(pre, FIRST, a, d, true, []);
      } else {
        var more := Continue(rest)[..d - |f|];
        assert (f + Continue(rest))[..d] == f + more && pre + (f + more) == pre + f + more;
        FragRead(pre, FIRST, a, more, true, []);
      }
    }
  }

  /** Whatever the history and the cut, a prefix of what was logged is read. */
  lemma {:induction false} CutReadsPrefix(ops: seq<PageOp>, c: nat)
    requires c <= |Written(ops)|
    ensures ReadAll(Written(ops)[..c], 0).0 <= Bodies(ops)
    decreases |ops|
  {
    hide Next, Frame, ReadAll, Truncated, Hazard;
    if HazardFree(ops) {
      TruncationSafety(ops, c);
      TruncatedIsPrefix(ops, c);
    } else {
      var init, last := ops[..|ops| - 1], ops[|ops| - 1];
      var w := Written(init);
      var e := Emitted(|w|, last);
      if c <= |w| {
        assert (w + e)[..c] == w[..c];
        CutReadsPrefix(init, c);
      } else {
        var d := c - |w|;
        assert (w + e)[..c] == w + e[..d];
        if !HazardFree(init) {
          FirstHazard(init, e[..d]);
        } else if d == |e| {
          assert w + e + [] == w + e && e[..d] == e;
          FirstHazard(ops, []);
        } else {
          HistoryRead(init, e[..d]);
          HazardCut(w, last.body, d);
          ReadFails(w + e[..d], |w|);
          assert Bodies(init) + [] == Bodies(init);
        }
      }
    }
  }

  /** How many records a cut takes off: those that end behind it. */
  function CutOff(ops: seq<PageOp>, c: nat): nat {
    if ops == [] then 0
    else CutOff(ops[..|ops| - 1], c) + (if ops[|ops| - 1].Log? && c < |Written(ops)| then 1 else 0)
  }

  lemma {:induction false} NothingCutOff(ops: seq<PageOp>, c: nat)
    requires |Written(ops)| <= c
    ensures CutOff(ops, c) == 0
  {
    hide Frame;
    if ops != [] {
      NothingCutOff(ops[..|ops| - 1], c);
    }
  }

  lemma SomethingEmitted(n: nat, body: Bytes)
    ensures |Emitted(n, Log(body))| > 0
  {
    hide Frag, Continue;
  }

  /** What the last call wrote lies behind the cut, or the cut goes through it. */
  lemma CutOffLast(ops: seq<PageOp>, c: nat)
    requires ops != []
    ensures var init, last := ops[..|ops| - 1], ops[|ops| - 1];
      && (c <= |Written(init)| ==> CutOff(ops, c) == CutOff(init, c) + (if last.Log? then 1 else 0))
      && (|Written(init)| <= c < |Written(ops)| ==> CutOff(ops, c) == if last.Log? then 1 else 0)
      && (|Written(ops)| <= c ==> CutOff(ops, c) == 0)
  {
    hide Frame;
    var init, last := ops[..|ops| - 1], ops[|ops| - 1];
    if last.Log? {
      SomethingEmitted(|Written(init)|, last.body);
    }
    if |Written(init)| <= c {
      NothingCutOff(init, c);
    }
  }

  /** Whatever the history and the cut: unless the reader meets the record that the framing loses,
      it returns all records but those that the cut takes off. */
  lemma {:induction false} CutReadsRest(ops: seq<PageOp>, c: nat)
    requires c <= |Written(ops)|
    ensures var (recs, e) := ReadAll(Written(ops)[..c], 0);
      e == UnexpectedFirst || |recs| + CutOff(ops, c) == |Bodies(ops)|
    decreases |ops|
  {
    hide Next, Frame, ReadAll, Hazard, CutOff, Truncated;
    if HazardFree(ops) {
      TruncationSafety(ops, c);
      TruncatedCount(ops, c);
    } else {
      var init, last := ops[..|ops| - 1], ops[|ops| - 1];
      var w := Written(init);
      var e := Emitted(|w|, last);
      CutOffLast(ops, c);
      if c <= |w| {
        assert (w + e)[..c] == w[..c];
        CutReadsRest(init, c);
      } else {
        var d := c - |w|;
        assert (w + e)[..c] == w + e[..d];
        if !HazardFree(init) {
          FirstHazard(init, e[..d]);
        } else if d == |e| {
          assert w + e + [] == w + e && e[..d] == e;
          FirstHazard(ops, []);
        } else {
          HistoryRead(init, e[..d]);
          HazardCut(w, last.body, d);
          ReadFails(w + e[..d], |w|);
          assert Bodies(init) + [] == Bodies(init);
        }
      }
    }
  }

  lemma {:induction false} TruncatedCount(ops: seq<PageOp>, c: nat)
    requires c <= |Written(ops)|
    ensures |Truncated(ops, c).0| + CutOff(ops, c) == |Bodies(ops)|
    decreases |ops|
  {
    hide Frame, CutOff;
    if ops == [] {
      NothingCutOff(ops, c);
    } else {
      CutOffLast(ops, c);
      if c <= |Written(ops[..|ops| - 1])| {
        TruncatedCount(ops[..|ops| - 1], c);
      }
    }
  }

  // ---- Damage ----------------------------------------------------------------

  lemma TypeAndFlags(b: byte)
    ensures And(b, 7) == b % 8 && And(b, 0x18) == 8 * (b / 8 % 4)
  {
    assert Pow2(3) == 8 && Pow2(2) == 4;
    assert And(b, 24) == 2 * And(b / 2, 12);
    assert And(b / 2, 12) == 2 * And(b / 2 / 2, 6);
    assert And(b / 2 / 2, 6) == 2 * And(b / 2 / 2 / 2, 3);
    assert b / 2 / 2 / 2 == b / 8;
    hide And;
    AndMask(b, 3);
    LowMod(b, 3);
    AndMask(b / 8, 2);
    LowMod(b / 8, 2);
  }

  /** A compression flag is refused before anything else is looked at, then a type that is none. */
  lemma StrangeByte(file: Bytes)
    requires |file| >= HEADER && file[0] != 0
    ensures file[0] % 32 >= 8 ==> ReadAll(file, 0) == ([], UnsupportedCompression)
    ensures 4 < file[0] % 32 < 8 ==> ReadAll(file, 0) == ([], InvalidRecType)
  {
    hide Next, And;
    StrangeParse(file);
    StrangeNext(file);
    if file[0] % 32 > 4 {
      ReadFails(file, 0);
    }
  }

  lemma StrangeTypes(b: byte)
    ensures b % 32 >= 8 ==> And(b, 0x18) != 0
    ensures 4 < b % 32 < 8 ==> And(b, 0x18) == 0 && And(b, 7) > 4
  {
    hide And;
    TypeAndFlags(b);
    assert b % 32 == 8 * (b / 8 % 4) + b % 8 by {
      DivDiv(b, 8, 4);
    }
  }

  lemma StrangeParse(file: Bytes)
    requires |file| >= HEADER && file[0] != 0
    ensures file[0] % 32 >= 8 ==> Parse(file, 0) == Err((UnsupportedCompression, 0))
    ensures 4 < file[0] % 32 < 8 ==> Parse(file, 0) == Err((InvalidRecType, 0))
  {
    hide And, Compute, BeValue;
    StrangeTypes(file[0]);
  }

  lemma StrangeNext(file: Bytes)
    requires file != [] && file[0] != 0
    ensures Parse(file, 0).Err? ==> Next(file, 0, false, []).0 == Err(Parse(file, 0).error.0)
  {
    hide Parse;
  }

  datatype Fragment = Fragment(kind: byte, data: Bytes)

  /** The fragments of a record that starts at page offset `off`. */
  function Fragments(off: nat, body: Bytes): seq<Fragment>
    requires off < PAGE_SIZE && !Hazard(off, body)
    decreases off
  {
    var left := PAGE_SIZE - off;
    if left < HEADER then Fragments(0, body)
    else if |body| <= left - HEADER then [Fragment(FULL, body)]
    else [Fragment(FIRST, body[..left - HEADER])] + Followers(body[left - HEADER..])
  }

  function Followers(body: Bytes): seq<Fragment>
    requires body != []
  {
    if |body| <= MAX_FRAGMENT then [Fragment(LAST, body)]
    else [Fragment(MIDDLE, body[..MAX_FRAGMENT])] + Followers(body[MAX_FRAGMENT..])
  }

  function Joined(fs: seq<Fragment>): Bytes {
    if fs == [] then [] else Frag(fs[0].kind, fs[0].data) + Joined(fs[1..])
  }

  lemma {:induction false} FollowersJoined(body: Bytes)
    requires body != []
    ensures Joined(Followers(body)) == Continue(body)
    decreases |body|
  {
    hide Frag;
    if |body| <= MAX_FRAGMENT {
      assert [Fragment(LAST, body)][1..] == [] && Joined([]) == [];
    } else {
      var f, more := Fragment(MIDDLE, body[..MAX_FRAGMENT]), Followers(body[MAX_FRAGMENT..]);
      FollowersJoined(body[MAX_FRAGMENT..]);
      assert ([f] + more)[1..] == more;
    }
  }

  /** A framed record is its fragments in a row, behind padding where the page has no room. */
  lemma {:induction false} FragmentsJoined(off: nat, body: Bytes)
    requires off < PAGE_SIZE && !Hazard(off, body)
    ensures Proper(Fragments(off, body))
    ensures Frame(off, body) == Zeros(Padding(off)) + Joined(Fragments(off, body))
    decreases off
  {
    hide Frag;
    var left := PAGE_SIZE - off;
    if left < HEADER {
      FragmentsJoined(0, body);
      assert Zeros(0) + Joined(Fragments(0, body)) == Joined(Fragments(0, body));
    } else if |body| <= left - HEADER {
      assert [Fragment(FULL, body)][1..] == [] && Joined([]) == [];
    } else {
      var f, more := Fragment(FIRST, body[..left - HEADER]), Followers(body[left - HEADER..]);
      FollowersJoined(body[left - HEADER..]);
      FollowersKinds(body[left - HEADER..]);
      assert ([f] + more)[1..] == more;
    }
  }

  /** The fragments with another body in one of them, its header left as it was. */
  function Tampered(fs: seq<Fragment>, i: nat, changed: Bytes): Bytes
    requires i < |fs|
  {
    if i == 0 then FragHeader(fs[0].kind, fs[0].data) + changed + Joined(fs[1..])
    else Frag(fs[0].kind, fs[0].data) + Tampered(fs[1..], i - 1, changed)
  }

  predicate Proper(fs: seq<Fragment>) {
    forall j :: 0 <= j < |fs| ==> 1 <= fs[j].kind <= 4 && |fs[j].data| <= MAX_FRAGMENT
  }

  /** All fragments behind the first are middle ones, but for the last one. */
  lemma {:induction false} FollowersKinds(body: Bytes)
    requires body != []
    ensures Proper(Followers(body))
    ensures forall j :: 0 <= j < |Followers(body)| ==> Followers(body)[j].kind == if j < |Followers(body)| - 1 then MIDDLE else LAST
    decreases |body|
  {
    if |body| > MAX_FRAGMENT {
      FollowersKinds(body[MAX_FRAGMENT..]);
    }
  }

  lemma MiddleThen(pre: Bytes, a: Bytes, t: Bytes, post: Bytes, acc: Bytes)
    requires |a| <= MAX_FRAGMENT
    ensures Next(pre + (Frag(MIDDLE, a) + t) + post, |pre|, true, acc)
         == Next(pre + Frag(MIDDLE, a) + t + post, |pre + Frag(MIDDLE, a)|, true, acc + a)
  {
    hide Next, Frag;
    Glue(pre, Frag(MIDDLE, a), t, post);
    FragRead(pre, MIDDLE, a, t + post, true, acc);
  }

  lemma {:induction false} MiddlesDamaged(pre: Bytes, fs: seq<Fragment>, i: nat, changed: Bytes, k: nat, post: Bytes, acc: Bytes)
    requires Proper(fs) && i < |fs| && DifferWithinFour(fs[i].data, changed, k)
    requires forall j :: 0 <= j < i ==> fs[j].kind == MIDDLE
    ensures Next(pre + Tampered(fs, i, changed) + post, |pre|, true, acc).0 == Err(CrcMismatch)
    decreases |fs|
  {
    hide Next, Frag, FragHeader, DifferWithinFour, Joined;
    if i == 0 {
      DamagedHere(pre, fs[0], changed, k, Joined(fs[1..]), post, true, acc);
    } else {
      var a := fs[0].data;
      MiddleThen(pre, a, Tampered(fs[1..], i - 1, changed), post, acc);
      MiddlesDamaged(pre + Frag(MIDDLE, a), fs[1..], i - 1, changed, k, post, acc + a);
    }
  }

  lemma DamagedHere(pre: Bytes, f: Fragment, changed: Bytes, k: nat, more: Bytes, post: Bytes, open: bool, acc: Bytes)
    requires 1 <= f.kind <= 4 && |f.data| <= MAX_FRAGMENT && DifferWithinFour(f.data, changed, k)
    ensures Next(pre + (FragHeader(f.kind, f.data) + changed + more) + post, |pre|, open, acc).0 == Err(CrcMismatch)
  {
    hide *;
    Glue(pre, FragHeader(f.kind, f.data) + changed, more, post);
    FragDamaged(pre, f.kind, f.data, changed, k, more + post, open, acc);
  }

  /** Wherever the damage is in the bodies of a record's fragments, the record is reported. */
  lemma {:induction false} RecordDamaged(pre: Bytes, body: Bytes, i: nat, changed: Bytes, k: nat, post: Bytes)
    requires !Hazard(|pre| % PAGE_SIZE, body) && i < |Fragments(|pre| % PAGE_SIZE, body)|
    requires DifferWithinFour(Fragments(|pre| % PAGE_SIZE, body)[i].data, changed, k)
    ensures var off := |pre| % PAGE_SIZE;
      Next(pre + (Zeros(Padding(off)) + Tampered(Fragments(off, body), i, changed)) + post, |pre|, false, []).0 == Err(CrcMismatch)
    decreases |pre| % PAGE_SIZE
  {
    hide Next, Frag, FragHeader, DifferWithinFour, Tampered, Followers;
    var off := |pre| % PAGE_SIZE;
    var left, fs := PAGE_SIZE - off, Fragments(off, body);
    var t := Tampered(fs, i, changed);
    if left < HEADER {
      PageAfter(|pre|, left);
      Glue(pre, Zeros(left), t, post);
      SkipPadding(pre, left, t + post, false, []);
      RecordDamaged(pre + Zeros(left), body, i, changed, k, post);
      NoZeros(t);
    } else {
      NoZeros(t);
      RoomyDamaged(pre, body, i, changed, k, post);
    }
  }

  lemma NoZeros(t: Bytes)
    ensures Zeros(0) + t == t
  {
  }

  lemma RoomyDamaged(pre: Bytes, body: Bytes, i: nat, changed: Bytes, k: nat, post: Bytes)
    requires !Hazard(|pre| % PAGE_SIZE, body) && PAGE_SIZE - |pre| % PAGE_SIZE >= HEADER
    requires i < |Fragments(|pre| % PAGE_SIZE, body)| && DifferWithinFour(Fragments(|pre| % PAGE_SIZE, body)[i].data, changed, k)
    ensures Next(pre + Tampered(Fragments(|pre| % PAGE_SIZE, body), i, changed) + post, |pre|, false, []).0 == Err(CrcMismatch)
  {
    hide Next, Frag, FragHeader, DifferWithinFour, Joined;
    var left, fs := PAGE_SIZE - |pre| % PAGE_SIZE, Fragments(|pre| % PAGE_SIZE, body);
    if i == 0 {
      DamagedHere(pre, fs[0], changed, k, Joined(fs[1..]), post, false, []);
    } else {
      assert fs[1..] == Followers(body[left - HEADER..]);
      DamagedBehind(pre, body[..left - HEADER], body[left - HEADER..], i - 1, changed, k, post);
    }
  }

  lemma DamagedBehind(pre: Bytes, a: Bytes, rest: Bytes, i: nat, changed: Bytes, k: nat, post: Bytes)
    requires |a| <= MAX_FRAGMENT && rest != [] && i < |Followers(rest)| && DifferWithinFour(Followers(rest)[i].data, changed, k)
    ensures Next(pre + (Frag(FIRST, a) + Tampered(Followers(rest), i, changed)) + post, |pre|, false, []).0 == Err(CrcMismatch)
  {
    hide Next, Frag, FragHeader, DifferWithinFour, Tampered, Followers;
    var t := Tampered(Followers(rest), i, changed);
    Glue(pre, Frag(FIRST, a), t, post);
    FragRead(pre, FIRST, a, t + post, false, []);
    FollowersKinds(rest);
    MiddlesDamaged(pre + Frag(FIRST, a), Followers(rest), i, changed, k, post, a);
  }

  /** Where the body of a fragment starts behind the first one. */
  function DataStart(fs: seq<Fragment>, i: nat): nat
    requires i < |fs|
  {
    if i == 0 then HEADER else HEADER + |fs[0].data| + DataStart(fs[1..], i - 1)
  }

  /** Other bytes in place of `n` bytes at `p`. */
  function Spliced(w: Bytes, p: nat, n: nat, changed: Bytes): Bytes
    requires p + n <= |w|
  {
    w[..p] + changed + w[p + n..]
  }

  lemma SplicedBehind(a: Bytes, b: Bytes, q: nat, n: nat, changed: Bytes)
    requires q + n <= |b|
    ensures (a + b)[|a| + q..|a| + q + n] == b[q..q + n]
    ensures Spliced(a + b, |a| + q, n, changed) == a + Spliced(b, q, n, changed)
  {
    assert (a + b)[..|a| + q] == a + b[..q];
  }

  lemma SplicedBefore(a: Bytes, b: Bytes, q: nat, n: nat, changed: Bytes)
    requires q + n <= |a|
    ensures (a + b)[q..q + n] == a[q..q + n]
    ensures Spliced(a + b, q, n, changed) == Spliced(a, q, n, changed) + b
  {
    assert (a + b)[q + n..] == a[q + n..] + b;
    assert (a + b)[..q] == a[..q];
  }

  lemma {:induction false} TamperedAt(fs: seq<Fragment>, i: nat, changed: Bytes)
    requires i < |fs|
    ensures var p, n := DataStart(fs, i), |fs[i].data|;
      && p + n <= |Joined(fs)| && Joined(fs)[p..p + n] == fs[i].data
      && Tampered(fs, i, changed) == Spliced(Joined(fs), p, n, changed)
    decreases i
  {
    hide FragHeader, Spliced;
    if i > 0 {
      TamperedAt(fs[1..], i - 1, changed);
      SplicedBehind(Frag(fs[0].kind, fs[0].data), Joined(fs[1..]), DataStart(fs[1..], i - 1), |fs[i].data|, changed);
    } else {
      TamperedFirst(FragHeader(fs[0].kind, fs[0].data), fs[0].data, Joined(fs[1..]), changed);
    }
  }

  lemma TamperedFirst(h: Bytes, data: Bytes, more: Bytes, changed: Bytes)
    ensures (h + data + more)[|h|..|h| + |data|] == data
    ensures Spliced(h + data + more, |h|, |data|, changed) == h + changed + more
  {
  }

  lemma {:induction false} WrittenPrefix(ops: seq<PageOp>, n: nat)
    requires n <= |ops|
    ensures Written(ops[..n]) <= Written(ops) && (HazardFree(ops) ==> HazardFree(ops[..n]))
    decreases |ops|
  {
    hide Frame, Hazard;
    if n < |ops| {
      assert ops[..|ops| - 1][..n] == ops[..n];
      WrittenPrefix(ops[..|ops| - 1], n);
    } else {
      assert ops[..n] == ops;
    }
  }

  /** The call at `n` logged a record that has a fragment `i`. */
  ghost predicate HasFragment(ops: seq<PageOp>, n: nat, i: nat) {
    && HazardFree(ops) && n < |ops| && ops[n].Log?
    && !Hazard(|Written(ops[..n])| % PAGE_SIZE, ops[n].body)
    && i < |Fragments(|Written(ops[..n])| % PAGE_SIZE, ops[n].body)|
  }

  ghost function FragmentOf(ops: seq<PageOp>, n: nat, i: nat): Fragment
    requires HasFragment(ops, n, i)
  {
    Fragments(|Written(ops[..n])| % PAGE_SIZE, ops[n].body)[i]
  }

  /** Where the body of that fragment starts in the buffer. */
  ghost function FragmentStart(ops: seq<PageOp>, n: nat, i: nat): nat
    requires HasFragment(ops, n, i)
  {
    var w := |Written(ops[..n])|;
    w + Padding(w % PAGE_SIZE) + DataStart(Fragments(w % PAGE_SIZE, ops[n].body), i)
  }

  /** The bytes of the record that a call logged, in the place where it logged them. */
  lemma RecordPlace(ops: seq<PageOp>, n: nat) returns (post: Bytes)
    requires HazardFree(ops) && n < |ops| && ops[n].Log?
    ensures HazardFree(ops[..n]) && !Hazard(|Written(ops[..n])| % PAGE_SIZE, ops[n].body)
    ensures Written(ops) == Written(ops[..n]) + Frame(|Written(ops[..n])| % PAGE_SIZE, ops[n].body) + post
  {
    hide Frame, Hazard;
    var upTo := ops[..n + 1];
    assert upTo[..n] == ops[..n] && upTo[n] == ops[n];
    WrittenPrefix(ops, n + 1);
    WrittenPrefix(upTo, n);
    post := Written(ops)[|Written(upTo)|..];
  }

  lemma DamagedAfter(ops: seq<PageOp>, body: Bytes, i: nat, changed: Bytes, k: nat, post: Bytes)
    requires HazardFree(ops) && !Hazard(|Written(ops)| % PAGE_SIZE, body) && i < |Fragments(|Written(ops)| % PAGE_SIZE, body)|
    requires DifferWithinFour(Fragments(|Written(ops)| % PAGE_SIZE, body)[i].data, changed, k)
    ensures var off := |Written(ops)| % PAGE_SIZE;
      ReadAll(Written(ops) + (Zeros(Padding(off)) + Tampered(Fragments(off, body), i, changed)) + post, 0) == (Bodies(ops), CrcMismatch)
  {
    hide Next, Frame, ReadAll, Hazard, Fragments, Tampered, Proper, DifferWithinFour, Written;
    var pre := Written(ops);
    var off := |pre| % PAGE_SIZE;
    FragmentsJoined(off, body);
    var t := Zeros(Padding(off)) + Tampered(Fragments(off, body), i, changed);
    RecordDamaged(pre, body, i, changed, k, post);
    assert pre + (t + post) == pre + t + post;
    HistoryRead(ops, t + post);
    ReadFails(pre + t + post, |pre|);
    assert Bodies(ops) + [] == Bodies(ops);
  }

  /** A buffer with one fragment's body changed inside four consecutive bytes: the records in front
      are read, then the damage is reported. */
  lemma BufferDamaged(ops: seq<PageOp>, n: nat, i: nat, changed: Bytes, k: nat)
    requires HasFragment(ops, n, i) && DifferWithinFour(FragmentOf(ops, n, i).data, changed, k)
    ensures var w, p, m := Written(ops), FragmentStart(ops, n, i), |FragmentOf(ops, n, i).data|;
      && p + m <= |w| && w[p..p + m] == FragmentOf(ops, n, i).data
      && ReadAll(Spliced(w, p, m, changed), 0) == (Bodies(ops[..n]), CrcMismatch)
  {
    hide Next, Frame, ReadAll, Hazard, Fragments, Tampered, Joined, DataStart, DifferWithinFour, Written, Bodies, Proper, HazardFree,
      Spliced;
    var post := RecordPlace(ops, n);
    var pre, body := Written(ops[..n]), ops[n].body;
    var off := |pre| % PAGE_SIZE;
    var fs, z := Fragments(off, body), Zeros(Padding(off));
    FragmentsJoined(off, body);
    TamperedAt(fs, i, changed);
    InPlace(pre, z, Joined(fs), post, DataStart(fs, i), |fs[i].data|, changed);
    DamagedAfter(ops[..n], body, i, changed, k, post);
  }

  lemma InPlace(pre: Bytes, z: Bytes, j: Bytes, post: Bytes, q: nat, m: nat, changed: Bytes)
    requires q + m <= |j|
    ensures var w, p := pre + (z + j) + post, |pre| + |z| + q;
      && p + m <= |w| && w[p..p + m] == j[q..q + m]
      && Spliced(w, p, m, changed) == pre + (z + Spliced(j, q, m, changed)) + post
  {
    hide *;
    SplicedBehind(z, j, q, m, changed);
    SplicedBehind(pre, z + j, |z| + q, m, changed);
    SplicedBefore(pre + (z + j), post, |pre| + |z| + q, m, changed);
  }

  // ---- The writer and the reader ---------------------------------------------

  class PageWriter {
    var buf: Bytes

    constructor ()
      ensures buf == []
    {
      buf := [];
    }

    function PageOffset(): nat
      reads this
    {
      |buf| % PAGE_SIZE
    }

    function RoomAfterHeader(): nat
      reads this
    {
      if PAGE_SIZE - PageOffset() < HEADER then 0 else PAGE_SIZE - PageOffset() - HEADER
    }

    method WriteHeader(t: byte, data: Bytes)
      requires |data| <= MAX_FRAGMENT
      modifies this
      ensures buf == old(buf) + FragHeader(t, data)
    {
      hide FragHeader, Compute;
      var crc := ComputeByTable(data);
      HeaderBytes(buf, t, data, crc);
      buf := buf + [t];
      buf := buf + [|data| / 256, |data| % 256];
      buf := buf + [crc / 0x100_0000, crc / 0x1_0000 % 256, crc / 256 % 256, crc % 256];
    }

    /** Appends one record, cut at page boundaries. */
    method Log(body: Bytes)
      modifies this
      ensures buf == old(buf) + Frame(|old(buf)| % PAGE_SIZE, body)
    {
      hide Frag, Frame, Compute, FragHeader, Progress;
      var pos := 0;
      var empty := body == [];
      var done := false;
      ProgressEnds(buf, buf, body);
      while pos < |body| || (empty && pos == 0 && !done)
        invariant pos <= |body| && (done ==> empty)
        invariant done ==> buf == old(buf) + Frame(|old(buf)| % PAGE_SIZE, body)
        invariant !done ==> Progress(old(buf), buf, body, pos)
        decreases |body| - pos, if done then 0 else if |buf| % PAGE_SIZE == 0 then 1 else 2
      {
        if PAGE_SIZE - PageOffset() < HEADER {
          PageAfter(|buf|, PAGE_SIZE - PageOffset());
          ProgressPads(old(buf), buf, body, pos);
          buf := buf + Zeros(PAGE_SIZE - PageOffset());
        }
        var room := RoomAfterHeader();
        var len := if |body| - pos < room then |body| - pos else room;
        var first, last := pos == 0, pos + len == |body|;
        var t := if first && last then FULL else if first then FIRST else if last then LAST else MIDDLE;
        var data := body[pos..pos + len];
        ProgressStep(old(buf), buf, body, pos, len, t);
        GlueFragment(buf, t, data);
        WriteHeader(t, data);
        buf := buf + data;
        pos := pos + len;
        if empty {
          done := true;
        }
      }
      ProgressEnds(old(buf), buf, body);
    }

    /** Fills the current page with zeros. */
    method ClosePage()
      modifies this
      ensures buf == old(buf) + Zeros(PagePad(|old(buf)|))
    {
      if PageOffset() == 0 {
        return;
      }
      buf := buf + Zeros(PAGE_SIZE - PageOffset());
    }
  }

  lemma GlueFragment(buf: Bytes, t: byte, data: Bytes)
    ensures buf + FragHeader(t, data) + data == buf + Frag(t, data)
  {
    hide FragHeader;
  }

  lemma HeaderBytes(buf: Bytes, t: byte, data: Bytes, crc: u32)
    requires |data| <= MAX_FRAGMENT && crc == Compute(data)
    ensures buf + [t] + [|data| / 256, |data| % 256]
      + [crc / 0x100_0000, crc / 0x1_0000 % 256, crc / 256 % 256, crc % 256] == buf + FragHeader(t, data)
  {
    hide ToBe, Compute;
    TwoBytes(|data|);
    FourBytes(crc);
  }

  /** Where the fragment loop stands: what it has appended and what it still has to append make
      up the whole record. */
  predicate Progress(start: Bytes, buf: Bytes, body: Bytes, pos: nat) {
    var whole := start + Frame(|start| % PAGE_SIZE, body);
    if pos == 0 then buf + Frame(|buf| % PAGE_SIZE, body) == whole
    else if pos < |body| then |buf| % PAGE_SIZE == 0 && buf + Continue(body[pos..]) == whole
    else buf == whole
  }

  lemma ProgressEnds(start: Bytes, buf: Bytes, body: Bytes)
    ensures Progress(start, start, body, 0)
    ensures body != [] && Progress(start, buf, body, |body|) ==> buf == start + Frame(|start| % PAGE_SIZE, body)
  {
    hide Frame, Continue;
  }

  lemma ProgressPads(start: Bytes, buf: Bytes, body: Bytes, pos: nat)
    requires PAGE_SIZE - |buf| % PAGE_SIZE < HEADER && pos <= |body| && (body != [] ==> pos < |body|)
    requires Progress(start, buf, body, pos)
    ensures pos == 0 && Progress(start, buf + Zeros(PAGE_SIZE - |buf| % PAGE_SIZE), body, pos)
  {
    hide Frag, Continue;
    var left := PAGE_SIZE - |buf| % PAGE_SIZE;
    assert Frame(|buf| % PAGE_SIZE, body) == Zeros(left) + Frame(0, body);
    PageAfter(|buf|, left);
    ConcatThree(buf, Zeros(left), Frame(0, body));
  }

  lemma ConcatThree(a: Bytes, b: Bytes, c: Bytes)
    ensures a + (b + c) == a + b + c
  {
  }

  /** One turn of the fragment loop, once there is room for a header. */
  lemma ProgressStep(start: Bytes, buf: Bytes, body: Bytes, pos: nat, len: nat, t: byte)
    requires pos <= |body| && (body != [] ==> pos < |body|) && PAGE_SIZE - |buf| % PAGE_SIZE >= HEADER
    requires var room := PAGE_SIZE - |buf| % PAGE_SIZE - HEADER; len == if |body| - pos < room then |body| - pos else room
    requires t == if pos == 0 then (if len == |body| then FULL else FIRST) else if pos + len == |body| then LAST else MIDDLE
    requires Progress(start, buf, body, pos)
    ensures var next := buf + Frag(t, body[pos..pos + len]);
      && (body == [] ==> next == start + Frame(|start| % PAGE_SIZE, body))
      && (body != [] ==> Progress(start, next, body, pos + len))
      && (len == 0 && body != [] ==> |next| % PAGE_SIZE == 0 && |buf| % PAGE_SIZE != 0)
  {
    hide Frag, Frame, Continue;
    if pos == 0 {
      FirstFragment(buf, body, len);
      ConcatThree(buf, Frag(t, body[..len]), if len == 0 then Frame(0, body) else if len < |body| then Continue(body[len..]) else []);
    } else {
      LaterFragment(buf, body, pos, len);
      ConcatThree(buf, Frag(t, body[pos..pos + len]), if pos + len < |body| then Continue(body[pos + len..]) else []);
    }
  }

  lemma FirstFragment(buf: Bytes, body: Bytes, len: nat)
    requires PAGE_SIZE - |buf| % PAGE_SIZE >= HEADER
    requires var room := PAGE_SIZE - |buf| % PAGE_SIZE - HEADER; len == if |body| < room then |body| else room
    ensures len == |body| ==> Frame(|buf| % PAGE_SIZE, body) == Frag(FULL, body[..len])
    ensures len < |body| ==> (|buf| + HEADER + len) % PAGE_SIZE == 0
    ensures 0 < len < |body| ==> Frame(|buf| % PAGE_SIZE, body) == Frag(FIRST, body[..len]) + Continue(body[len..])
    ensures 0 == len < |body| ==> Frame(|buf| % PAGE_SIZE, body) == Frag(FIRST, body[..len]) + Frame(0, body)
  {
    hide Frag, Continue;
    assert body[..|body|] == body;
    if len < |body| {
      PageAfter(|buf|, PAGE_SIZE - |buf| % PAGE_SIZE);
    }
  }

  lemma LaterFragment(buf: Bytes, body: Bytes, pos: nat, len: nat)
    requires 0 < pos < |body| && |buf| % PAGE_SIZE == 0
    requires len == if |body| - pos < MAX_FRAGMENT then |body| - pos else MAX_FRAGMENT
    ensures pos + len == |body| ==> Continue(body[pos..]) == Frag(LAST, body[pos..pos + len])
    ensures pos + len < |body| ==> (|buf| + HEADER + len) % PAGE_SIZE == 0 && len > 0
    ensures pos + len < |body| ==>
      Continue(body[pos..]) == Frag(MIDDLE, body[pos..pos + len]) + Continue(body[pos + len..])
  {
    hide Frag;
    assert body[pos..][..len] == body[pos..pos + len] && body[pos..][len..] == body[pos + len..];
    if pos + len < |body| {
      PageOn(|buf|);
    } else {
      assert body[pos..pos + len] == body[pos..];
    }
  }

  class PageReader {
    const buf: Bytes
    var offset: nat
    var record: Bytes

    constructor (bytes: Bytes)
      ensures buf == bytes && offset == 0
    {
      buf, offset, record := bytes, 0, [];
    }

    /** Reads one fragment and checks its sum. */
    method ReadFragment() returns (r: Result<(nat, Bytes), WalError>)
      requires offset < |buf|
      modifies this
      ensures record == old(record)
      ensures match Parse(buf, old(offset))
        case Ok((t, data, end)) => r == Ok((t, data)) && offset == end
        case Err((e, at)) => r == Err(e) && offset == at
    {
      hide Compute, And, BeValue;
      if offset + HEADER > |buf| {
        return Err(UnexpectedEnd);
      }
      if And(buf[offset], 0x18) != 0 {
        return Err(UnsupportedCompression);
      }
      var t := And(buf[offset], 7);
      if t > 4 {
        return Err(InvalidRecType);
      }
      var len, crc := BeValue(buf[offset + 1..offset + 3]), BeValue(buf[offset + 3..offset + 7]);
      offset := offset + HEADER;
      if offset + len > |buf| {
        return Err(UnexpectedEnd);
      }
      var data := buf[offset..offset + len];
      offset := offset + len;
      var sum := ComputeByTable(data);
      if sum != crc {
        return Err(CrcMismatch);
      }
      return Ok((t, data));
    }

    /** Assembles the next record from its fragments. */
    method NextRecord() returns (r: Result<Bytes, WalError>)
      modifies this
      ensures (r, offset) == Next(buf, old(offset), false, [])
    {
      hide Parse;
      record := [];
      var open := false;
      while true
        invariant Next(buf, offset, open, record) == Next(buf, old(offset), false, [])
        decreases |buf| - offset
      {
        if offset >= |buf| {
          return Err(if open then TornRecord else EndOfStream);
        }
        if buf[offset] == 0 {
          var remaining := PAGE_SIZE - offset % PAGE_SIZE;
          var n := if remaining < |buf| - offset then remaining else |buf| - offset;
          if exists i :: offset <= i < offset + n && buf[i] != 0 {
            return Err(InvalidRecType);
          }
          offset := offset + n;
          continue;
        }
        var fragment := ReadFragment();
        if fragment.Err? {
          return Err(fragment.error);
        }
        var (t, data) := fragment.value;
        if t == FULL {
          if open {
            return Err(UnexpectedFirst);
          }
          record := data;
          return Ok(record);
        } else if t == FIRST {
          if open {
            return Err(UnexpectedFirst);
          }
          record := data;
          open := true;
        } else if t == MIDDLE {
          if !open {
            return Err(UnexpectedMiddle);
          }
          record := record + data;
        } else if t == LAST {
          if !open {
            return Err(UnexpectedMiddle);
          }
          record := record + data;
          return Ok(record);
        } else {
          return Err(InvalidRecType);
        }
      }
    }
  }
}
