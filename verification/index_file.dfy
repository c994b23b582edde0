/** The index file as a whole: its layout, and reading it back. */
module IndexFiles {
  import opened Words
  import opened Wrappers
  import opened Sorting
  import opened Crc32c
  import opened LabelSets
  import opened WalRecords
  import opened Queries
  import opened IndexFormat

  // ---- Postings --------------------------------------------------------------

  datatype PostingData = PostingData(name: Str, value: Str, ids: seq<nat>)

  function EncIds(ids: seq<nat>): (s: Bytes)
    ensures |s| == 4 * |ids|
  {
    if ids == [] then [] else EncIds(ids[..|ids| - 1]) + ToBe(ids[|ids| - 1], 4)
  }

  function PostingPayload(ids: seq<nat>): Bytes {
    ToBe(|ids|, 4) + EncIds(ids)
  }

  function IdsIn(payload: Bytes, count: nat): (r: seq<nat>)
    requires 4 + 4 * count <= |payload|
    ensures |r| == count
  {
    if count == 0 then [] else IdsIn(payload, count - 1) + [BeValue(payload[4 * count..4 * count + 4])]
  }

  function ReadPostingList(file: Bytes, off: nat): Result<seq<nat>, IndexError> {
    match ReadSection(file, off)
    case Err(e) => Err(e)
    case Ok(payload) =>
      if |payload| < 4 then Err(IllegalBytes)
      else
        var count := BeValue(payload[..4]);
        if |payload| < 4 + 4 * count then Err(IllegalBytes) else Ok(IdsIn(payload, count))
  }

  predicate Words32(ids: seq<nat>) {
    forall i :: 0 <= i < |ids| ==> ids[i] < TWO32
  }

  lemma {:induction false} IdsBack(ids: seq<nat>, k: nat)
    requires k <= |ids| && Words32(ids)
    ensures IdsIn(PostingPayload(ids), k) == ids[..k]
    decreases k
  {
    hide ToBe, BeValue;
    if k > 0 {
      IdsBack(ids, k - 1);
      IdSlice(ids, k - 1);
      BeBack(ids[k - 1]);
      assert ids[..k] == ids[..k - 1] + [ids[k - 1]];
    }
  }

  lemma {:induction false} IdSlice(ids: seq<nat>, k: nat)
    requires k < |ids|
    ensures PostingPayload(ids)[4 + 4 * k..8 + 4 * k] == ToBe(ids[k], 4)
    decreases |ids|
  {
    hide ToBe;
    var init, last := ids[..|ids| - 1], ids[|ids| - 1];
    var p := ToBe(|ids|, 4) + EncIds(init);
    assert PostingPayload(ids) == p + ToBe(last, 4);
    if k < |init| {
      IdSlice(init, k);
      var q := PostingPayload(init);
      assert p[4 + 4 * k..8 + 4 * k] == EncIds(init)[4 * k..4 * k + 4] == q[4 + 4 * k..8 + 4 * k];
      assert PostingPayload(ids)[4 + 4 * k..8 + 4 * k] == p[4 + 4 * k..8 + 4 * k];
    }
  }

  lemma PostingListBack(pre: Bytes, ids: seq<nat>, post: Bytes)
    requires |PostingPayload(ids)| < TWO32 && Words32(ids)
    ensures ReadPostingList(pre + Section(PostingPayload(ids)) + post, |pre|) == Ok(ids)
  {
    hide ToBe, BeValue, Section, ReadSection, IdsIn;
    var payload := PostingPayload(ids);
    SectionBack(pre, payload, post);
    BeBack(|ids|);
    assert payload[..4] == ToBe(|ids|, 4);
    IdsBack(ids, |ids|);
    assert ids[..|ids|] == ids;
  }

  // ---- The postings table ----------------------------------------------------

  datatype TableEntry = TableEntry(name: Str, value: Str, offset: nat)

  function EncTableEntry(e: TableEntry): Bytes {
    Varint.Uvarint(2) + EncStr(e.name) + EncStr(e.value) + Varint.Uvarint(e.offset)
  }

  function EncTable(es: seq<TableEntry>): Bytes {
    if es == [] then [] else EncTableEntry(es[0]) + EncTable(es[1..])
  }

  function TablePayload(es: seq<TableEntry>): Bytes {
    ToBe(|es|, 4) + EncTable(es)
  }

  function TakeTableEntry(buf: Bytes): (r: Option<(TableEntry, nat)>)
    ensures r.Some? ==> r.value.1 <= |buf|
  {
    match TakeUvarint(buf)
    case None => None
    case Some((keys, i)) =>
      if keys != 2 then None
      else match TakeStr(buf[i..])
        case None => None
        case Some((name, j)) =>
          match TakeStr(buf[i + j..])
          case None => None
          case Some((value, k)) =>
            match TakeUvarint(buf[i + j + k..])
            case None => None
            case Some((off, n)) => Some((TableEntry(name, value, off), i + j + k + n))
  }

  function TakeTable(buf: Bytes, count: nat): Option<(seq<TableEntry>, nat)>
    decreases count
  {
    hide *;
    if count == 0 then Some(([], 0))
    else
      var e := TakeTableEntry(buf);
      if e.None? then None
      else
        var es := TakeTable(buf[e.value.1..], count - 1);
        if es.None? then None else Some(([e.value.0] + es.value.0, e.value.1 + es.value.1))
  }

  function ParseTable(file: Bytes, off: nat): Result<seq<TableEntry>, IndexError> {
    match ReadSection(file, off)
    case Err(e) => Err(e)
    case Ok(payload) =>
      if |payload| < 4 then Err(IllegalBytes)
      else match TakeTable(payload[4..], BeValue(payload[..4]))
        case None => Err(IllegalBytes)
        case Some((es, n)) => if 4 + n != |payload| then Err(IllegalBytes) else Ok(es)
  }

  predicate CountableEntry(e: TableEntry) {
    |e.name| < TWO64 && |e.value| < TWO64 && e.offset < TWO64
  }

  lemma TableEntryBack(e: TableEntry, tail: Bytes)
    requires CountableEntry(e)
    ensures TakeTableEntry(EncTableEntry(e) + tail) == Some((e, |EncTableEntry(e)|))
  {
    hide TakeUvarint, TakeStr, Varint.Uvarint, EncStr;
    var a, b, c, d := Varint.Uvarint(2), EncStr(e.name), EncStr(e.value), Varint.Uvarint(e.offset);
    FourFields(a, b, c, d, tail);
    UvarintBack(2, b + c + d + tail);
    StrBack(e.name, c + d + tail);
    StrBack(e.value, d + tail);
    UvarintBack(e.offset, tail);
    assert b + (c + d + tail) == b + c + d + tail && c + (d + tail) == c + d + tail;
  }

  lemma {:induction false} TableBack(es: seq<TableEntry>)
    requires forall i :: 0 <= i < |es| ==> CountableEntry(es[i])
    ensures TakeTable(EncTable(es), |es|) == Some((es, |EncTable(es)|))
    decreases |es|
  {
    hide TakeTableEntry, EncTableEntry, CountableEntry;
    if es != [] {
      var rest := EncTable(es[1..]);
      TableEntryBack(es[0], rest);
      DropAfter(EncTableEntry(es[0]), rest, []);
      TableBack(es[1..]);
      assert [es[0]] + es[1..] == es;
    }
  }

  lemma TableSectionBack(pre: Bytes, es: seq<TableEntry>, post: Bytes)
    requires |TablePayload(es)| < TWO32 && |es| < TWO32 && forall i :: 0 <= i < |es| ==> CountableEntry(es[i])
    ensures ParseTable(pre + Section(TablePayload(es)) + post, |pre|) == Ok(es)
  {
    hide ToBe, BeValue, Section, ReadSection, TakeTable, EncTable, CountableEntry;
    var payload := TablePayload(es);
    SectionBack(pre, payload, post);
    BeBack(|es|);
    assert payload[..4] == ToBe(|es|, 4) && payload[4..] == EncTable(es);
    TableBack(es);
  }

  // ---- Looking up a pair -----------------------------------------------------

  /** The key under which the reader keeps a pair. */
  function Key(name: Str, value: Str): Str {
    name + [0] + value
  }

  /** The first entry with the key of a pair. */
  function LookupPair(es: seq<TableEntry>, name: Str, value: Str): Option<nat> {
    if es == [] then None
    else if Key(es[0].name, es[0].value) == Key(name, value) then Some(es[0].offset)
    else LookupPair(es[1..], name, value)
  }

  predicate NulFree(s: Str) {
    0 !in s
  }

  lemma KeyShape(n: Str, v: Str)
    requires NulFree(n)
    ensures Key(n, v)[|n|] == 0 && forall i :: 0 <= i < |n| ==> Key(n, v)[i] != 0
    ensures Key(n, v)[..|n|] == n && Key(n, v)[|n| + 1..] == v
  {
    forall i | 0 <= i < |n|
      ensures Key(n, v)[i] != 0
    {
      assert n[i] in n;
    }
  }

  /** Without a zero byte in the names, a key stands for one pair. */
  lemma KeyUnique(n: Str, v: Str, m: Str, w: Str)
    requires NulFree(n) && NulFree(m)
    ensures Key(n, v) == Key(m, w) <==> n == m && v == w
  {
    if Key(n, v) == Key(m, w) {
      KeyShape(n, v);
      KeyShape(m, w);
      assert |n| == |m|;
    }
  }

  /** No other pair has the same key. */
  ghost predicate Unmistakable(n: Str, v: Str) {
    forall m, w :: Key(m, w) == Key(n, v) ==> m == n && w == v
  }

  /** Among all pairs, a key stands for one exactly when neither string holds a zero byte. */
  lemma UnmistakableIff(n: Str, v: Str)
    ensures Unmistakable(n, v) <==> NulFree(n) && NulFree(v)
  {
    hide Key;
    if NulFree(n) && NulFree(v) {
      forall m, w | Key(m, w) == Key(n, v)
        ensures m == n && w == v
      {
        OneZero(n, v, m, w);
      }
    }
    if !NulFree(n) {
      var k :| 0 <= k < |n| && n[k] == 0;
      ZeroInName(n, v, k);
    }
    if !NulFree(v) {
      var k :| 0 <= k < |v| && v[k] == 0;
      ZeroInValue(n, v, k);
    }
  }

  lemma OneZero(n: Str, v: Str, m: Str, w: Str)
    requires NulFree(n) && NulFree(v) && Key(m, w) == Key(n, v)
    ensures m == n && w == v
  {
    var key := Key(n, v);
    assert key[|m|] == 0 && |m| < |key|;
    assert forall p :: 0 <= p < |key| && p != |n| ==> key[p] == if p < |n| then n[p] else v[p - |n| - 1];
    assert |m| == |n|;
    assert key[..|m|] == m && key[|m| + 1..] == w && key[..|n|] == n && key[|n| + 1..] == v;
  }

  lemma ZeroInName(n: Str, v: Str, k: nat)
    requires k < |n| && n[k] == 0
    ensures Key(n[..k], n[k + 1..] + [0] + v) == Key(n, v) && n[..k] != n
  {
  }

  lemma ZeroInValue(n: Str, v: Str, k: nat)
    requires k < |v| && v[k] == 0
    ensures Key(n + [0] + v[..k], v[k + 1..]) == Key(n, v) && n + [0] + v[..k] != n
  {
  }

  /** With one, it may stand for two: the posting list of one pair is then found for the other. */
  lemma KeyAmbiguous()
    ensures Key([97], [98, 0, 99]) == Key([97, 0, 98], [99])
    ensures LookupPair([TableEntry([97], [98, 0, 99], 7)], [97, 0, 98], [99]) == Some(7)
  {
    assert Key([97], [98, 0, 99]) == [97, 0, 98, 0, 99] == Key([97, 0, 98], [99]);
  }

  /** The first entry with a key is the one that is found. */
  lemma {:induction false} LookupFirst(es: seq<TableEntry>, j: nat)
    requires j < |es| && forall i :: 0 <= i < j ==> Key(es[i].name, es[i].value) != Key(es[j].name, es[j].value)
    ensures LookupPair(es, es[j].name, es[j].value) == Some(es[j].offset)
    decreases |es|
  {
    hide Key;
    if j > 0 {
      assert forall i :: 0 <= i < j - 1 ==> es[1..][i] == es[i + 1];
      LookupFirst(es[1..], j - 1);
    }
  }

  lemma {:induction false} LookupAbsent(es: seq<TableEntry>, name: Str, value: Str)
    requires forall i :: 0 <= i < |es| ==> Key(es[i].name, es[i].value) != Key(name, value)
    ensures LookupPair(es, name, value) == None
    decreases |es|
  {
    hide Key;
    if es != [] {
      LookupAbsent(es[1..], name, value);
    }
  }

  /** Only the key of a pair is looked at. */
  lemma {:induction false} LookupByKey(es: seq<TableEntry>, n: Str, v: Str, m: Str, w: Str)
    requires Key(n, v) == Key(m, w)
    ensures LookupPair(es, n, v) == LookupPair(es, m, w)
    decreases |es|
  {
    hide Key;
    if es != [] {
      LookupByKey(es[1..], n, v, m, w);
    }
  }

  /** The pairs of a table, in order. */
  function TablePairs(es: seq<TableEntry>): (ps: seq<(Str, Str)>)
    ensures |ps| == |es| && forall j :: 0 <= j < |es| ==> ps[j] == (es[j].name, es[j].value)
  {
    seq(|es|, j requires 0 <= j < |es| => (es[j].name, es[j].value))
  }

  /** The pair that stands for another in a table: the first with the same key. */
  function Standing(ps: seq<(Str, Str)>, name: Str, value: Str): Option<(Str, Str)> {
    if ps == [] then None
    else if Key(ps[0].0, ps[0].1) == Key(name, value) then Some(ps[0])
    else Standing(ps[1..], name, value)
  }

  lemma {:induction false} StandingIs(ps: seq<(Str, Str)>, name: Str, value: Str)
    ensures match Standing(ps, name, value)
      case None => forall j :: 0 <= j < |ps| ==> Key(ps[j].0, ps[j].1) != Key(name, value)
      case Some(p) => p in ps && Key(p.0, p.1) == Key(name, value)
    decreases |ps|
  {
    hide Key;
    if ps != [] {
      StandingIs(ps[1..], name, value);
      assert forall j :: 0 < j < |ps| ==> ps[j] == ps[1..][j - 1];
    }
  }

  lemma {:induction false} LookupStanding(es: seq<TableEntry>, name: Str, value: Str) returns (j: nat)
    ensures match Standing(TablePairs(es), name, value)
      case None => LookupPair(es, name, value) == None
      case Some(p) => j < |es| && p == (es[j].name, es[j].value) && LookupPair(es, name, value) == Some(es[j].offset)
    decreases |es|
  {
    hide Key;
    j := 0;
    if es != [] {
      assert TablePairs(es)[1..] == TablePairs(es[1..]);
      if Key(es[0].name, es[0].value) != Key(name, value) {
        var k := LookupStanding(es[1..], name, value);
        j := k + 1;
      }
    }
  }

  /** Which pair stands for another only depends on its key. */
  lemma {:induction false} StandingByKey(ps: seq<(Str, Str)>, n: Str, v: Str, m: Str, w: Str)
    requires Key(n, v) == Key(m, w)
    ensures Standing(ps, n, v) == Standing(ps, m, w)
    decreases |ps|
  {
    hide Key;
    if ps != [] {
      StandingByKey(ps[1..], n, v, m, w);
    }
  }

  // ---- Table of contents -----------------------------------------------------

  datatype Toc = Toc(symbols: u64, series: u64, labelIndices: u64, labelIndicesTable: u64, postings: u64, postingsTable: u64)

  function TocBody(t: Toc): (b: Bytes)
    ensures |b| == 48
  {
    ToBe(t.symbols, 8) + ToBe(t.series, 8) + ToBe(t.labelIndices, 8) + ToBe(t.labelIndicesTable, 8) + ToBe(t.postings, 8)
    + ToBe(t.postingsTable, 8)
  }

  function TocBytes(t: Toc): (b: Bytes)
    ensures |b| == TOC_SIZE
  {
    TocBody(t) + ToBe(Compute(TocBody(t)), 4)
  }

  function Be64At(b: Bytes, i: nat): u64
    requires i + 8 <= |b|
  {
    BeBound(b[i..i + 8]);
    BeValue(b[i..i + 8])
  }

  function TocOf(b: Bytes): Toc
    requires |b| == 48
  {
    Toc(Be64At(b, 0), Be64At(b, 8), Be64At(b, 16), Be64At(b, 24), Be64At(b, 32), Be64At(b, 40))
  }

  function ParseToc(file: Bytes): Result<Toc, IndexError> {
    if |file| < TOC_SIZE then Err(IllegalBytes)
    else
      var b := file[|file| - TOC_SIZE..];
      if Compute(b[..48]) != BeValue(b[48..52]) then Err(IllegalBytes) else Ok(TocOf(b[..48]))
  }

  lemma Be64Back(x: u64)
    ensures BeValue(ToBe(x, 8)) == x
  {
    Pow2Values();
    assert x < Pow2(64);
    hide *;
    BeRoundTrip(x, 8);
  }

  lemma SixSlices(a: Bytes, b: Bytes, c: Bytes, d: Bytes, e: Bytes, f: Bytes)
    requires |a| == |b| == |c| == |d| == |e| == |f| == 8
    ensures var s := a + b + c + d + e + f;
      s[0..8] == a && s[8..16] == b && s[16..24] == c && s[24..32] == d && s[32..40] == e && s[40..48] == f
  {
  }

  lemma TocOfBody(t: Toc)
    ensures TocOf(TocBody(t)) == t
  {
    hide ToBe, BeValue;
    SixSlices(ToBe(t.symbols, 8), ToBe(t.series, 8), ToBe(t.labelIndices, 8), ToBe(t.labelIndicesTable, 8), ToBe(t.postings, 8),
              ToBe(t.postingsTable, 8));
    Be64Back(t.symbols);
    Be64Back(t.series);
    Be64Back(t.labelIndices);
    Be64Back(t.labelIndicesTable);
    Be64Back(t.postings);
    Be64Back(t.postingsTable);
  }

  lemma TocBack(pre: Bytes, t: Toc)
    ensures ParseToc(pre + TocBytes(t)) == Ok(t)
  {
    hide ToBe, BeValue, Compute, TocBody, TocOf;
    TocOfBody(t);
    BeBack(Compute(TocBody(t)));
    var file := pre + TocBytes(t);
    assert file[|file| - TOC_SIZE..] == TocBytes(t);
    assert TocBytes(t)[..48] == TocBody(t) && TocBytes(t)[48..52] == ToBe(Compute(TocBody(t)), 4);
  }

  // ---- Layout ----------------------------------------------------------------

  datatype IndexContent = IndexContent(symbols: seq<Str>, series: seq<SeriesData>, postings: seq<PostingData>)

  function Zeros(n: nat): (z: Bytes)
    ensures |z| == n
  {
    seq(n, _ => 0)
  }

  function Gap(n: nat, align: nat): nat
    requires align > 0
  {
    if n % align == 0 then 0 else align - n % align
  }

  function Padded(b: Bytes, align: nat): (p: Bytes)
    requires align > 0
    ensures b <= p
  {
    b + Zeros(Gap(|b|, align))
  }

  /** Series one after the other, each on a 16-byte boundary. */
  function SeriesBlock(base: Bytes, ss: seq<SeriesData>): Bytes {
    if ss == [] then base
    else Padded(SeriesBlock(base, ss[..|ss| - 1]), SERIES_ALIGN) + VarSection(SeriesPayload(ss[|ss| - 1]))
  }

  function SeriesStart(base: Bytes, ss: seq<SeriesData>, i: nat): nat
    requires i <= |ss|
  {
    |Padded(SeriesBlock(base, ss[..i]), SERIES_ALIGN)|
  }

  /** Posting lists one after the other, each on a 4-byte boundary. */
  function PostingsBlock(base: Bytes, ps: seq<PostingData>): Bytes {
    if ps == [] then base
    else Padded(PostingsBlock(base, ps[..|ps| - 1]), 4) + Section(PostingPayload(ps[|ps| - 1].ids))
  }

  function TableEntries(base: Bytes, ps: seq<PostingData>): (r: seq<TableEntry>)
    ensures |r| == |ps|
  {
    if ps == [] then []
    else
      var init, last := ps[..|ps| - 1], ps[|ps| - 1];
      TableEntries(base, init) + [TableEntry(last.name, last.value, |Padded(PostingsBlock(base, init), 4)|)]
  }

  function Head(syms: seq<Str>): Bytes {
    INDEX_MAGIC + [WRITE_FORMAT] + Section(SymbolPayload(syms))
  }

  function BeforePostings(c: IndexContent): Bytes {
    Padded(SeriesBlock(Head(c.symbols), c.series), SERIES_ALIGN)
  }

  function BeforeTable(c: IndexContent): Bytes {
    PostingsBlock(BeforePostings(c), c.postings)
  }

  function TableOf(c: IndexContent): (r: seq<TableEntry>)
    ensures |r| == |c.postings|
  {
    TableEntries(BeforePostings(c), c.postings)
  }

  function TocFor(c: IndexContent): Toc {
    var head, p := Head(c.symbols), |BeforePostings(c)|;
    Toc(HEADER_SIZE, ToU64(if c.series == [] then |head| else |Padded(head, SERIES_ALIGN)|), ToU64(p), ToU64(p), ToU64(p),
        ToU64(|BeforeTable(c)|))
  }

  function IndexFile(c: IndexContent): Bytes {
    BeforeTable(c) + Section(TablePayload(TableOf(c))) + TocBytes(TocFor(c))
  }

  /** The identifier of a series: its position in units of 16 bytes, cut to 32 bits. */
  function SeriesId(c: IndexContent, i: nat): u32
    requires i < |c.series|
  {
    SeriesStart(Head(c.symbols), c.series, i) / SERIES_ALIGN % TWO32
  }

  // ---- Reading the file ------------------------------------------------------

  datatype Index = Index(file: Bytes, version: byte, toc: Toc, symbols: SymbolTable, table: seq<TableEntry>)

  function ParseIndex(file: Bytes): Result<Index, IndexError> {
    if |file| < HEADER_SIZE + TOC_SIZE then Err(IllegalBytes)
    else if file[..4] != INDEX_MAGIC then Err(IllegalBytes)
    else if file[4] != 1 && file[4] != 2 && file[4] != 3 then Err(NotSupported)
    else match ParseToc(file)
      case Err(e) => Err(e)
      case Ok(toc) =>
        match ParseSymbols(file, toc.symbols, file[4])
        case Err(e) => Err(e)
        case Ok(t) =>
          match ParseTable(file, toc.postingsTable)
          case Err(e) => Err(e)
          case Ok(table) => Ok(Index(file, file[4], toc, t, table))
  }

  function SeriesOf(x: Index, id: nat): Result<SeriesEntry, IndexError> {
    match ReadVarSection(x.file, if x.version == 1 then id else id * 16)
    case Err(e) => Err(e)
    case Ok(payload) => DecodeSeriesPayload(payload, x.file, x.symbols)
  }

  function PostingsOf(x: Index, name: Str, value: Str): Result<seq<nat>, IndexError> {
    match LookupPair(x.table, name, value) case None => Ok([]) case Some(off) => ReadPostingList(x.file, off)
  }

  // ---- The round trip --------------------------------------------------------

  /** What a writer must be given: references to symbols that exist, and sizes that fit their
      fields. */
  predicate SoundContent(c: IndexContent) {
    && FitsFormat(c)
    && forall i :: 0 <= i < |c.series| ==> RefsExist(c.series[i], |c.symbols|)
  }

  /** Lengths, counts and identifiers fit their fields. */
  predicate FitsFormat(c: IndexContent) {
    && AllCountable(c.symbols) && |c.symbols| < TWO32 && |SymbolPayload(c.symbols)| < TWO32
    && (forall i :: 0 <= i < |c.series| ==> FitsSeries(c.series[i]))
    && (forall j :: 0 <= j < |c.postings| ==> FitsPosting(c.postings[j]))
    && |c.postings| < TWO32 && |TablePayload(TableOf(c))| < TWO32
    && |IndexFile(c)| <= SERIES_ALIGN * TWO32
  }

  predicate RefsExist(s: SeriesData, symbols: nat) {
    forall k :: 0 <= k < |s.labelRefs| ==> s.labelRefs[k].0 < symbols && s.labelRefs[k].1 < symbols
  }

  predicate FitsSeries(s: SeriesData) {
    |s.labelRefs| < TWO64 && |s.metas| < TWO64 && |SeriesPayload(s)| < TWO64
  }

  predicate FitsPosting(p: PostingData) {
    |p.name| < TWO64 && |p.value| < TWO64 && |PostingPayload(p.ids)| < TWO32 && Words32(p.ids)
  }

  lemma PaddedAligned(b: Bytes, align: nat)
    requires align > 0
    ensures |Padded(b, align)| % align == 0
  {
    var n := |b|;
    if n % align != 0 {
      assert n + (align - n % align) == align * (n / align + 1);
      MultipleMod(align, n / align + 1);
    }
  }

  lemma MultipleMod(a: nat, q: nat)
    requires a > 0
    ensures a * q % a == 0
  {
    DivUnique(a * q, a, q, 0);
  }

  /** Where a series stands in the block, and what follows it. */
  lemma {:induction false} SeriesPlace(base: Bytes, ss: seq<SeriesData>, i: nat) returns (post: Bytes)
    requires i < |ss|
    ensures SeriesBlock(base, ss) == Padded(SeriesBlock(base, ss[..i]), SERIES_ALIGN) + VarSection(SeriesPayload(ss[i])) + post
    decreases |ss|
  {
    hide VarSection, SeriesPayload, Padded;
    var init, last := ss[..|ss| - 1], VarSection(SeriesPayload(ss[|ss| - 1]));
    if i == |ss| - 1 {
      post := [];
    } else {
      var p := SeriesPlace(base, init, i);
      assert init[..i] == ss[..i];
      var q := Padded(SeriesBlock(base, init), SERIES_ALIGN)[|SeriesBlock(base, init)|..];
      post := p + q + last;
      assert Padded(SeriesBlock(base, init), SERIES_ALIGN) == SeriesBlock(base, init) + q;
    }
  }

  lemma {:induction false} PostingPlace(base: Bytes, ps: seq<PostingData>, j: nat) returns (post: Bytes)
    requires j < |ps|
    ensures PostingsBlock(base, ps) == Padded(PostingsBlock(base, ps[..j]), 4) + Section(PostingPayload(ps[j].ids)) + post
    ensures TableEntries(base, ps)[j] == TableEntry(ps[j].name, ps[j].value, |Padded(PostingsBlock(base, ps[..j]), 4)|)
    decreases |ps|
  {
    hide Section, PostingPayload, Padded;
    var init, last := ps[..|ps| - 1], Section(PostingPayload(ps[|ps| - 1].ids));
    if j == |ps| - 1 {
      post := [];
    } else {
      var p := PostingPlace(base, init, j);
      assert init[..j] == ps[..j];
      var q := Padded(PostingsBlock(base, init), 4)[|PostingsBlock(base, init)|..];
      post := p + q + last;
      assert Padded(PostingsBlock(base, init), 4) == PostingsBlock(base, init) + q;
    }
  }

  lemma {:induction false} SeriesBlockGrows(base: Bytes, ss: seq<SeriesData>) returns (more: Bytes)
    ensures SeriesBlock(base, ss) == base + more
  {
    hide VarSection, SeriesPayload, Padded;
    if ss == [] {
      more := [];
    } else {
      var m := SeriesBlockGrows(base, ss[..|ss| - 1]);
      var q := Padded(base + m, SERIES_ALIGN)[|base + m|..];
      more := m + q + VarSection(SeriesPayload(ss[|ss| - 1]));
      assert Padded(base + m, SERIES_ALIGN) == base + m + q;
    }
  }

  lemma {:induction false} PostingsBlockGrows(base: Bytes, ps: seq<PostingData>) returns (more: Bytes)
    ensures PostingsBlock(base, ps) == base + more
  {
    hide Section, PostingPayload, Padded;
    if ps == [] {
      more := [];
    } else {
      var m := PostingsBlockGrows(base, ps[..|ps| - 1]);
      var q := Padded(base + m, 4)[|base + m|..];
      more := m + q + Section(PostingPayload(ps[|ps| - 1].ids));
      assert Padded(base + m, 4) == base + m + q;
    }
  }

  /** What follows each part of the file. */
  lemma FileParts(c: IndexContent) returns (afterHead: Bytes, afterSeries: Bytes, afterPostings: Bytes)
    ensures IndexFile(c) == Head(c.symbols) + afterHead
    ensures IndexFile(c) == SeriesBlock(Head(c.symbols), c.series) + afterSeries
    ensures IndexFile(c) == BeforeTable(c) + afterPostings
    ensures IndexFile(c) == BeforeTable(c) + Section(TablePayload(TableOf(c))) + TocBytes(TocFor(c))
  {
    hide Section, TablePayload, TocBytes, TocFor, Head, Padded, SeriesBlock, PostingsBlock;
    var more := SeriesBlockGrows(Head(c.symbols), c.series);
    var block := SeriesBlock(Head(c.symbols), c.series);
    var gap := BeforePostings(c)[|block|..];
    assert BeforePostings(c) == block + gap;
    var lists := PostingsBlockGrows(BeforePostings(c), c.postings);
    afterPostings := Section(TablePayload(TableOf(c))) + TocBytes(TocFor(c));
    afterSeries := gap + lists + afterPostings;
    afterHead := more + afterSeries;
    assert block + gap + lists + afterPostings == block + afterSeries;
    assert Head(c.symbols) + more + afterSeries == Head(c.symbols) + afterHead;
  }

  lemma SeriesPart(c: IndexContent) returns (rest: Bytes)
    ensures IndexFile(c) == SeriesBlock(Head(c.symbols), c.series) + rest
  {
    hide *;
    var _, r, _ := FileParts(c);
    rest := r;
  }

  lemma PostingsPart(c: IndexContent) returns (rest: Bytes)
    ensures IndexFile(c) == PostingsBlock(BeforePostings(c), c.postings) + rest
  {
    assert BeforeTable(c) == PostingsBlock(BeforePostings(c), c.postings);
    hide *;
    var _, _, r := FileParts(c);
    rest := r;
  }

  lemma Rejoin(a: Bytes, b: Bytes, c: Bytes, d: Bytes)
    ensures a + b + c + d == a + b + (c + d)
  {
  }

  lemma {:induction false} TableNames(base: Bytes, ps: seq<PostingData>)
    ensures forall j :: 0 <= j < |ps| ==>
      && TableEntries(base, ps)[j].name == ps[j].name && TableEntries(base, ps)[j].value == ps[j].value
      && TableEntries(base, ps)[j].offset <= |PostingsBlock(base, ps)|
  {
    hide Section, PostingPayload, Padded;
    forall j | 0 <= j < |ps|
      ensures TableEntries(base, ps)[j].name == ps[j].name && TableEntries(base, ps)[j].value == ps[j].value
        && TableEntries(base, ps)[j].offset <= |PostingsBlock(base, ps)|
    {
      var post := PostingPlace(base, ps, j);
    }
  }

  /** A written index opens, and its symbols are all there. */
  lemma IndexOpens(c: IndexContent)
    requires SoundContent(c)
    ensures var r := ParseIndex(IndexFile(c));
      && r.Ok? && r.value.file == IndexFile(c) && r.value.version == WRITE_FORMAT && r.value.toc == TocFor(c)
      && r.value.table == TableOf(c) && r.value.symbols.version == WRITE_FORMAT && r.value.symbols.count == |c.symbols|
      && Knows(IndexFile(c), r.value.symbols, c.symbols)
  {
    hide Section, TablePayload, TocBytes, SymbolPayload, ParseSymbols, ParseTable, ParseToc, CountableEntry, Symbol, SeriesBlock,
      PostingsBlock, Padded, RefsExist, FitsSeries, FitsPosting, TableEntries;
    var file := IndexFile(c);
    var afterHead, _, _ := FileParts(c);
    var start := INDEX_MAGIC + [WRITE_FORMAT];
    var symbols := Section(SymbolPayload(c.symbols));
    assert file == start + symbols + afterHead;
    SymbolsBack(start, c.symbols, afterHead);
    FileStart(start, symbols + afterHead, file);
    EntriesCountable(c);
    TableSectionBack(BeforeTable(c), TableOf(c), TocBytes(TocFor(c)));
    TocBack(BeforeTable(c) + Section(TablePayload(TableOf(c))), TocFor(c));
  }

  lemma FileStart(start: Bytes, rest: Bytes, file: Bytes)
    requires start == INDEX_MAGIC + [WRITE_FORMAT] && file == start + rest
    ensures |file| >= 5 && file[..4] == INDEX_MAGIC && file[4] == WRITE_FORMAT
  {
  }

  lemma EntriesCountable(c: IndexContent)
    requires SoundContent(c)
    ensures forall j :: 0 <= j < |TableOf(c)| ==> CountableEntry(TableOf(c)[j])
    ensures |BeforeTable(c)| < TWO64 && TocFor(c).postingsTable == |BeforeTable(c)|
  {
    hide Section, TablePayload, TocBytes, SymbolPayload, SeriesBlock, PostingsBlock, Padded, FitsSeries, RefsExist, TableEntries, Head, PostingPayload;
    TableNames(BeforePostings(c), c.postings);
    assert |BeforeTable(c)| <= |IndexFile(c)|;
    forall j | 0 <= j < |c.postings|
      ensures CountableEntry(TableOf(c)[j])
    {
      assert FitsPosting(c.postings[j]);
    }
  }

  /** What stands before and after a series in the file. */
  lemma SeriesLayout(c: IndexContent, i: nat) returns (pre: Bytes, post: Bytes)
    requires i < |c.series|
    ensures IndexFile(c) == pre + VarSection(SeriesPayload(c.series[i])) + post
    ensures |pre| == SeriesStart(Head(c.symbols), c.series, i) && |pre| % SERIES_ALIGN == 0
  {
    assert SeriesStart(Head(c.symbols), c.series, i) == |Padded(SeriesBlock(Head(c.symbols), c.series[..i]), SERIES_ALIGN)|;
    assert SERIES_ALIGN > 0;
    hide *;
    var afterSeries := SeriesPart(c);
    var rest := SeriesPlace(Head(c.symbols), c.series, i);
    pre := Padded(SeriesBlock(Head(c.symbols), c.series[..i]), SERIES_ALIGN);
    post := rest + afterSeries;
    Rejoin(pre, VarSection(SeriesPayload(c.series[i])), rest, afterSeries);
    PaddedAligned(SeriesBlock(Head(c.symbols), c.series[..i]), SERIES_ALIGN);
  }

  lemma SeriesRead(c: IndexContent, i: nat)
    requires SoundContent(c) && i < |c.series|
    ensures ReadVarSection(IndexFile(c), SeriesId(c, i) * 16) == Ok(SeriesPayload(c.series[i]))
  {
    hide SoundContent, VarSection, SeriesPayload, IndexFile, SeriesStart, ReadVarSection, Head;
    SoundSeriesOf(c, i);
    var pre, post := SeriesLayout(c, i);
    VarSectionBack(pre, SeriesPayload(c.series[i]), post);
    IdBack(|pre|, |IndexFile(c)|);
  }

  /** Every series is found under the identifier its writing gave. */
  lemma SeriesFound(c: IndexContent, i: nat)
    requires SoundContent(c) && i < |c.series|
    ensures ParseIndex(IndexFile(c)).Ok?
    ensures RefsExist(c.series[i], |c.symbols|)
    ensures SeriesOf(ParseIndex(IndexFile(c)).value, SeriesId(c, i))
         == Ok(SeriesEntry(Canonicalized(Resolved(c.series[i].labelRefs, c.symbols)), c.series[i].metas))
  {
    hide SoundContent, VarSection, SeriesPayload, DecodeSeriesPayload, Canonicalized, Resolved, ParseIndex, IndexFile, Knows,
      ReadVarSection, SeriesId;
    IndexOpens(c);
    SoundSeriesOf(c, i);
    SeriesRead(c, i);
    SeriesPayloadBack(c.series[i], IndexFile(c), ParseIndex(IndexFile(c)).value.symbols, c.symbols);
  }

  lemma SoundSeriesOf(c: IndexContent, i: nat)
    requires SoundContent(c) && i < |c.series|
    ensures RefsExist(c.series[i], |c.symbols|) && FitsSeries(c.series[i]) && |IndexFile(c)| <= SERIES_ALIGN * TWO32
  {
    hide IndexFile, SymbolPayload, TablePayload, SeriesPayload, FitsPosting;
    assert FitsSeries(c.series[i]);
  }

  lemma IdBack(n: nat, size: nat)
    requires n % SERIES_ALIGN == 0 && n < size <= SERIES_ALIGN * TWO32
    ensures n / SERIES_ALIGN % TWO32 * 16 == n
  {
  }

  /** The posting list at the offset the table gives. */
  lemma PostingsRead(c: IndexContent, j: nat)
    requires SoundContent(c) && j < |c.postings|
    ensures ReadPostingList(IndexFile(c), TableOf(c)[j].offset) == Ok(c.postings[j].ids)
    ensures TableOf(c)[j].name == c.postings[j].name && TableOf(c)[j].value == c.postings[j].value
  {
    assert TableOf(c) == TableEntries(BeforePostings(c), c.postings);
    SoundPostingOf(c, j);
    hide *;
    var p := c.postings[j];
    var afterPostings := PostingsPart(c);
    var post := PostingPlace(BeforePostings(c), c.postings, j);
    var pre := Padded(PostingsBlock(BeforePostings(c), c.postings[..j]), 4);
    Rejoin(pre, Section(PostingPayload(p.ids)), post, afterPostings);
    PostingListBack(pre, p.ids, post + afterPostings);
  }

  /** A later series starts later. */
  lemma NextBoundary(b: Bytes, align: nat)
    requires align > 0
    ensures |b| <= |Padded(b, align)| < |b| + align && |Padded(b, align)| % align == 0
  {
    PaddedAligned(b, align);
  }

  /** Series stand one behind the other, each at the next multiple of 16. */
  lemma SeriesPacked(c: IndexContent, i: nat)
    requires i < |c.series|
    ensures var start := SeriesStart(Head(c.symbols), c.series, i);
      var n := if i == 0 then 0 else |SeriesPayload(c.series[i - 1])|;
      var end := if i == 0 then |Head(c.symbols)|
        else SeriesStart(Head(c.symbols), c.series, i - 1) + |Varint.Uvarint(n)| + n + 4;
      start % 16 == 0 && end <= start < end + 16
  {
    hide Head, SeriesPayload, Varint.Uvarint, Compute, Padded;
    NextBoundary(SeriesBlock(Head(c.symbols), c.series[..i]), 16);
    if i > 0 {
      assert c.series[..i][..i - 1] == c.series[..i - 1];
    }
  }

  /** Posting lists stand one behind the other, each at the next multiple of 4. */
  lemma PostingsPacked(c: IndexContent, j: nat)
    requires j < |c.postings|
    ensures var end := if j == 0 then |BeforePostings(c)| else TableOf(c)[j - 1].offset + 12 + 4 * |c.postings[j - 1].ids|;
      TableOf(c)[j].offset % 4 == 0 && end <= TableOf(c)[j].offset < end + 4
  {
    hide BeforePostings, PostingsBlock, TableEntries;
    var base, ps := BeforePostings(c), c.postings;
    var post := PostingPlace(base, ps, j);
    NextBoundary(PostingsBlock(base, ps[..j]), 4);
    if j == 0 {
      NoPostings(base, ps[..0]);
    } else {
      var before := PostingPlace(base, ps, j - 1);
      ListEnd(base, ps[..j]);
      assert ps[..j][..j - 1] == ps[..j - 1];
    }
  }

  lemma NoPostings(base: Bytes, ps: seq<PostingData>)
    requires ps == []
    ensures PostingsBlock(base, ps) == base
  {
  }

  lemma ListEnd(base: Bytes, ps: seq<PostingData>)
    requires ps != []
    ensures |PostingsBlock(base, ps)| == |Padded(PostingsBlock(base, ps[..|ps| - 1]), 4)| + 12 + 4 * |ps[|ps| - 1].ids|
  {
  }

  lemma StartsAscend(base: Bytes, ss: seq<SeriesData>, i: nat, j: nat)
    requires i < j <= |ss|
    ensures SeriesStart(base, ss, i) < SeriesStart(base, ss, j)
  {
    assert ss[..j][..i] == ss[..i];
    assert SeriesStart(base, ss, i) == |Padded(SeriesBlock(base, ss[..i]), SERIES_ALIGN)|;
    assert SeriesStart(base, ss, j) == |Padded(SeriesBlock(base, ss[..j]), SERIES_ALIGN)| >= |SeriesBlock(base, ss[..j])|;
    hide *;
    var post := SeriesPlace(base, ss[..j], i);
  }

  /** Series get ascending identifiers. */
  lemma SeriesIdsAscend(c: IndexContent, i: nat, j: nat)
    requires |IndexFile(c)| <= SERIES_ALIGN * TWO32 && i < j < |c.series|
    ensures SeriesId(c, i) < SeriesId(c, j)
  {
    hide VarSection, SeriesPayload, IndexFile, SeriesStart, Head;
    StartsAscend(Head(c.symbols), c.series, i, j);
    var pre, post := SeriesLayout(c, i);
    var pre', post' := SeriesLayout(c, j);
    UnitsAscend(|pre|, |pre'|, |IndexFile(c)|);
  }

  lemma UnitsAscend(n: nat, m: nat, size: nat)
    requires n % SERIES_ALIGN == 0 && m % SERIES_ALIGN == 0 && n < m < size <= SERIES_ALIGN * TWO32
    ensures n / SERIES_ALIGN % TWO32 < m / SERIES_ALIGN % TWO32
  {
  }

  /** No earlier list was added under the same key. */
  predicate FirstOfKey(ps: seq<PostingData>, j: nat) {
    j < |ps| && forall i :: 0 <= i < j ==> Key(ps[i].name, ps[i].value) != Key(ps[j].name, ps[j].value)
  }

  /** So it is with distinct pairs whose names hold no zero byte. */
  lemma PlainIsFirst(ps: seq<PostingData>, j: nat)
    requires j < |ps| && forall i :: 0 <= i <= j ==> NulFree(ps[i].name)
    requires forall i :: 0 <= i < j ==> ps[i].name != ps[j].name || ps[i].value != ps[j].value
    ensures FirstOfKey(ps, j)
  {
    hide Key, NulFree;
    forall i | 0 <= i < j
      ensures Key(ps[i].name, ps[i].value) != Key(ps[j].name, ps[j].value)
    {
      KeyUnique(ps[i].name, ps[i].value, ps[j].name, ps[j].value);
    }
  }

  /** Every posting list that is the first under its key is found under its pair. */
  lemma PostingsFound(c: IndexContent, j: nat)
    requires SoundContent(c) && FirstOfKey(c.postings, j)
    ensures ParseIndex(IndexFile(c)).Ok?
    ensures PostingsOf(ParseIndex(IndexFile(c)).value, c.postings[j].name, c.postings[j].value) == Ok(c.postings[j].ids)
  {
    hide SoundContent, ParseIndex, IndexFile, Knows, ReadPostingList, TableEntries, BeforePostings, LookupPair, TocFor, Key;
    IndexOpens(c);
    TableNames(BeforePostings(c), c.postings);
    LookupFirst(TableOf(c), j);
    PostingsRead(c, j);
  }

  lemma SoundPostingOf(c: IndexContent, j: nat)
    requires SoundContent(c) && j < |c.postings|
    ensures |PostingPayload(c.postings[j].ids)| < TWO32 && Words32(c.postings[j].ids)
  {
    hide IndexFile, SymbolPayload, TablePayload, FitsSeries, PostingPayload;
    assert FitsPosting(c.postings[j]);
  }

  /** A pair finds the first list added under its key. */
  lemma PostingsByKey(c: IndexContent, j: nat, name: Str, value: Str)
    requires SoundContent(c) && FirstOfKey(c.postings, j) && Key(c.postings[j].name, c.postings[j].value) == Key(name, value)
    ensures ParseIndex(IndexFile(c)).Ok?
    ensures PostingsOf(ParseIndex(IndexFile(c)).value, name, value) == Ok(c.postings[j].ids)
  {
    hide SoundContent, ParseIndex, IndexFile, Knows, ReadPostingList, TableOf, LookupPair, TocFor, Key;
    PostingsFound(c, j);
    LookupByKey(ParseIndex(IndexFile(c)).value.table, name, value, c.postings[j].name, c.postings[j].value);
  }

  lemma PostingsMissing(c: IndexContent, name: Str, value: Str)
    requires SoundContent(c)
    requires forall j :: 0 <= j < |c.postings| ==> Key(c.postings[j].name, c.postings[j].value) != Key(name, value)
    ensures ParseIndex(IndexFile(c)).Ok?
    ensures PostingsOf(ParseIndex(IndexFile(c)).value, name, value) == Ok([])
  {
    hide SoundContent, ParseIndex, IndexFile, Knows, BeforePostings, TableEntries, LookupPair, PostingsBlock, Key;
    IndexOpens(c);
    TableNames(BeforePostings(c), c.postings);
    LookupAbsent(TableOf(c), name, value);
  }

  lemma FirstWith(ps: seq<PostingData>, name: Str, value: Str) returns (j: nat)
    ensures j <= |ps| && forall i :: 0 <= i < j ==> Key(ps[i].name, ps[i].value) != Key(name, value)
    ensures j < |ps| ==> Key(ps[j].name, ps[j].value) == Key(name, value) && FirstOfKey(ps, j)
  {
    hide Key;
    j := 0;
    while j < |ps| && Key(ps[j].name, ps[j].value) != Key(name, value)
      invariant j <= |ps| && forall i :: 0 <= i < j ==> Key(ps[i].name, ps[i].value) != Key(name, value)
    {
      j := j + 1;
    }
  }

  /** The first list added under the key of a pair, if there is one, is empty. */
  predicate NothingUnder(ps: seq<PostingData>, name: Str, value: Str) {
    forall j :: 0 <= j < |ps| && FirstOfKey(ps, j) && Key(ps[j].name, ps[j].value) == Key(name, value) ==> ps[j].ids == []
  }

  lemma NothingUnderIs(ps: seq<PostingData>, j: nat, name: Str, value: Str)
    requires j <= |ps| && forall i :: 0 <= i < j ==> Key(ps[i].name, ps[i].value) != Key(name, value)
    requires j < |ps| ==> Key(ps[j].name, ps[j].value) == Key(name, value)
    ensures NothingUnder(ps, name, value) <==> j == |ps| || ps[j].ids == []
  {
    hide Key;
    assert j < |ps| ==> FirstOfKey(ps, j);
  }

  /** A pair has no postings exactly when there is nothing under its key. */
  lemma PostingsAbsent(c: IndexContent, name: Str, value: Str)
    requires SoundContent(c)
    ensures ParseIndex(IndexFile(c)).Ok?
    ensures PostingsOf(ParseIndex(IndexFile(c)).value, name, value) == Ok([]) <==> NothingUnder(c.postings, name, value)
  {
    hide *;
    IndexOpens(c);
    var j := FirstWith(c.postings, name, value);
    NothingUnderIs(c.postings, j, name, value);
    if j < |c.postings| {
      PostingsByKey(c, j, name, value);
    } else {
      PostingsMissing(c, name, value);
    }
  }
}
