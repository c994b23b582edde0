/** The index file of a persistent block: what is written and how it is read. */
module IndexFormat {
  import opened Words
  import opened Wrappers
  import opened Sorting
  import opened Crc32c
  import opened LabelSets
  import opened WalRecords
  import opened Queries

  const INDEX_MAGIC: Bytes := [0xBA, 0xAA, 0xD7, 0x00]
  const WRITE_FORMAT: byte := 2
  const HEADER_SIZE := 5
  const TOC_SIZE := 6 * 8 + 4
  const SERIES_ALIGN := 16
  const STRIDE := 32

  datatype IndexError = NotPermitted | InvalidArgument | IllegalBytes | OutOfRange | NotSupported

  // ---- Sections --------------------------------------------------------------

  /** Length, payload, sum over the payload. */
  function Section(payload: Bytes): (s: Bytes)
    ensures |s| == |payload| + 8
  {
    ToBe(|payload|, 4) + payload + ToBe(Compute(payload), 4)
  }

  function ReadSection(file: Bytes, off: nat): (r: Result<Bytes, IndexError>)
    ensures r.Ok? ==> off + |r.value| + 8 <= |file| && file[off + 4..off + 4 + |r.value|] == r.value
  {
    if off + 4 > |file| then Err(IllegalBytes)
    else
      var len := BeValue(file[off..off + 4]);
      if off + 4 + len + 4 > |file| then Err(IllegalBytes)
      else if Compute(file[off + 4..off + 4 + len]) != BeValue(file[off + 4 + len..off + 4 + len + 4]) then Err(IllegalBytes)
      else Ok(file[off + 4..off + 4 + len])
  }

  lemma SectionBack(pre: Bytes, payload: Bytes, post: Bytes)
    requires |payload| < TWO32
    ensures ReadSection(pre + Section(payload) + post, |pre|) == Ok(payload)
  {
    hide ToBe, BeValue, Compute;
    var a, c := ToBe(|payload|, 4), ToBe(Compute(payload), 4);
    BeBack(|payload|);
    BeBack(Compute(payload));
    ThreeParts(pre, a, payload, c, post);
  }

  lemma BeBack(x: u32)
    ensures BeValue(ToBe(x, 4)) == x
  {
    Pow2Values();
    hide *;
    BeRoundTrip(x, 4);
  }

  lemma ThreeParts(pre: Bytes, a: Bytes, b: Bytes, c: Bytes, post: Bytes)
    ensures var s, i := pre + (a + b + c) + post, |pre|;
      && s[i..i + |a|] == a
      && s[i + |a|..i + |a| + |b|] == b
      && s[i + |a| + |b|..i + |a| + |b| + |c|] == c
  {
  }

  /** The same frame with a variable-length length. */
  function VarSection(payload: Bytes): (s: Bytes)
    ensures |s| > |payload| + 4
  {
    Varint.Uvarint(|payload|) + payload + ToBe(Compute(payload), 4)
  }

  function ReadVarSection(file: Bytes, off: nat): Result<Bytes, IndexError> {
    if off >= |file| then Err(IllegalBytes)
    else match TakeUvarint(file[off..])
      case None => Err(IllegalBytes)
      case Some((len, k)) =>
        var p := off + k;
        if p + len + 4 > |file| then Err(IllegalBytes)
        else if Compute(file[p..p + len]) != BeValue(file[p + len..p + len + 4]) then Err(IllegalBytes)
        else Ok(file[p..p + len])
  }

  lemma VarSectionBack(pre: Bytes, payload: Bytes, post: Bytes)
    requires |payload| < TWO64
    ensures ReadVarSection(pre + VarSection(payload) + post, |pre|) == Ok(payload)
  {
    hide ToBe, BeValue, Compute, TakeUvarint, Varint.Uvarint;
    var a, c := Varint.Uvarint(|payload|), ToBe(Compute(payload), 4);
    BeBack(Compute(payload));
    ThreeParts(pre, a, payload, c, post);
    UvarintBack(|payload|, payload + c + post);
    assert (pre + VarSection(payload) + post)[|pre|..] == a + (payload + c + post);
  }

  // ---- Symbols ---------------------------------------------------------------

  function EncStrs(ss: seq<Str>): Bytes {
    if ss == [] then [] else EncStr(ss[0]) + EncStrs(ss[1..])
  }

  function SymbolPayload(syms: seq<Str>): Bytes {
    ToBe(|syms|, 4) + EncStrs(syms)
  }

  /** From the start of one symbol to the start of the next. */
  function NextSymbol(file: Bytes, pos: nat): Option<nat> {
    if pos > |file| then None
    else match TakeUvarint(file[pos..]) case None => None case Some((len, k)) => Some(pos + k + len)
  }

  function Walk(file: Bytes, pos: nat, n: nat): Option<nat>
    decreases n
  {
    if n == 0 then Some(pos) else match NextSymbol(file, pos) case None => None case Some(p) => Walk(file, p, n - 1)
  }

  /** Symbols can be walked one by one and stay within the section. */
  predicate Walkable(file: Bytes, pos: nat, limit: nat, n: nat)
    decreases n
  {
    n == 0 || (NextSymbol(file, pos).Some? && NextSymbol(file, pos).value <= limit
               && Walkable(file, NextSymbol(file, pos).value, limit, n - 1))
  }

  /** The table keeps the position of every 32nd symbol. */
  datatype SymbolTable = SymbolTable(version: byte, count: nat, start: nat, sparse: seq<nat>)

  function PosOf(file: Bytes, start: nat, k: nat): nat {
    match Walk(file, start, k) case Some(p) => p case None => 0
  }

  function Buckets(count: nat): nat {
    (count + STRIDE - 1) / STRIDE
  }

  function SparseOf(file: Bytes, start: nat, count: nat): (r: seq<nat>)
    ensures |r| == Buckets(count)
  {
    seq(Buckets(count), (b: nat) => PosOf(file, start, STRIDE * b))
  }

  function ParseSymbols(file: Bytes, off: nat, version: byte): Result<SymbolTable, IndexError> {
    match ReadSection(file, off)
    case Err(e) => Err(e)
    case Ok(payload) =>
      if |payload| < 4 then Err(IllegalBytes)
      else
        var count, start := BeValue(payload[..4]), off + 8;
        if Walkable(file, start, start + |payload| - 4, count)
        then Ok(SymbolTable(version, count, start, SparseOf(file, start, count)))
        else Err(IllegalBytes)
  }

  function StringAt(file: Bytes, pos: nat): Result<Str, IndexError> {
    if pos > |file| then Err(IllegalBytes)
    else match TakeStr(file[pos..]) case None => Err(IllegalBytes) case Some((s, _)) => Ok(s)
  }

  /** A symbol by reference: straight to the nearest recorded position, then symbol by symbol.
      In the first format version the reference is itself a position. */
  function Symbol(file: Bytes, t: SymbolTable, ref: nat): Result<Str, IndexError> {
    if t.version == 1 then (if ref >= |file| then Err(IllegalBytes) else StringAt(file, ref))
    else if ref >= t.count then Err(OutOfRange)
    else if ref / STRIDE >= |t.sparse| then Err(IllegalBytes)
    else match Walk(file, t.sparse[ref / STRIDE], ref % STRIDE)
      case None => Err(IllegalBytes)
      case Some(pos) => StringAt(file, pos)
  }

  /** A symbol by walking from the first one. */
  function LinearSymbol(file: Bytes, t: SymbolTable, ref: nat): Result<Str, IndexError> {
    match Walk(file, t.start, ref) case None => Err(IllegalBytes) case Some(pos) => StringAt(file, pos)
  }

  lemma {:induction false} WalkAdd(file: Bytes, pos: nat, m: nat, n: nat)
    ensures Walk(file, pos, m + n) == match Walk(file, pos, m) case None => None case Some(p) => Walk(file, p, n)
    decreases m
  {
    hide NextSymbol;
    if m > 0 && NextSymbol(file, pos).Some? {
      WalkAdd(file, NextSymbol(file, pos).value, m - 1, n);
      assert Walk(file, pos, m + n) == Walk(file, NextSymbol(file, pos).value, (m - 1) + n);
    }
  }

  lemma {:induction false} WalkableWalks(file: Bytes, pos: nat, limit: nat, n: nat, k: nat)
    requires Walkable(file, pos, limit, n) && k <= n
    ensures Walk(file, pos, k).Some?
    decreases n
  {
    hide NextSymbol;
    if k > 0 {
      WalkableWalks(file, NextSymbol(file, pos).value, limit, n - 1, k - 1);
    }
  }

  lemma StrideSplit(ref: nat, count: nat)
    requires ref < count
    ensures ref / STRIDE < Buckets(count) && ref == STRIDE * (ref / STRIDE) + ref % STRIDE
  {
  }

  /** For every file whose symbols parse, jumping and then walking at most 31 symbols finds what
      walking from the first symbol finds. */
  lemma SparseIsLinear(file: Bytes, off: nat, version: byte, ref: nat)
    requires version != 1 && ParseSymbols(file, off, version).Ok?
    requires ref < ParseSymbols(file, off, version).value.count
    ensures var t := ParseSymbols(file, off, version).value;
      Symbol(file, t, ref) == LinearSymbol(file, t, ref)
  {
    hide Walk, NextSymbol, Walkable, StringAt, BeValue, ReadSection;
    var t := ParseSymbols(file, off, version).value;
    var payload := ReadSection(file, off).value;
    StrideSplit(ref, t.count);
    WalkableWalks(file, t.start, t.start + |payload| - 4, t.count, STRIDE * (ref / STRIDE));
    WalkAdd(file, t.start, STRIDE * (ref / STRIDE), ref % STRIDE);
  }

  lemma OneSymbol(pre: Bytes, s: Str, post: Bytes)
    requires |s| < TWO64
    ensures NextSymbol(pre + EncStr(s) + post, |pre|) == Some(|pre| + |EncStr(s)|)
    ensures StringAt(pre + EncStr(s) + post, |pre|) == Ok(s)
  {
    hide TakeUvarint, Varint.Uvarint;
    assert (pre + EncStr(s) + post)[|pre|..] == EncStr(s) + post;
    StrBack(s, post);
    assert EncStr(s) + post == Varint.Uvarint(|s|) + (s + post);
    UvarintBack(|s|, s + post);
  }

  predicate AllCountable(ss: seq<Str>) {
    forall i :: 0 <= i < |ss| ==> |ss[i]| < TWO64
  }

  /** Written symbols can be walked, and the walk finds each one. */
  lemma {:induction false} SymbolsWalk(pre: Bytes, syms: seq<Str>, post: Bytes, limit: nat)
    requires AllCountable(syms) && |pre + EncStrs(syms)| <= limit
    ensures Walkable(pre + EncStrs(syms) + post, |pre|, limit, |syms|)
    decreases |syms|
  {
    hide NextSymbol, EncStr;
    if syms != [] {
      var rest := EncStrs(syms[1..]);
      OneSymbol(pre, syms[0], rest + post);
      assert pre + EncStrs(syms) + post == pre + EncStr(syms[0]) + (rest + post);
      assert pre + EncStrs(syms) + post == (pre + EncStr(syms[0])) + rest + post;
      SymbolsWalk(pre + EncStr(syms[0]), syms[1..], post, limit);
    }
  }

  lemma {:induction false} SymbolFound(pre: Bytes, syms: seq<Str>, post: Bytes, k: nat)
    requires AllCountable(syms) && k < |syms|
    ensures Walk(pre + EncStrs(syms) + post, |pre|, k).Some?
    ensures StringAt(pre + EncStrs(syms) + post, Walk(pre + EncStrs(syms) + post, |pre|, k).value) == Ok(syms[k])
    decreases |syms|
  {
    hide NextSymbol, EncStr, StringAt;
    var rest := EncStrs(syms[1..]);
    OneSymbol(pre, syms[0], rest + post);
    assert pre + EncStrs(syms) + post == pre + EncStr(syms[0]) + (rest + post);
    assert pre + EncStrs(syms) + post == (pre + EncStr(syms[0])) + rest + post;
    if k > 0 {
      SymbolFound(pre + EncStr(syms[0]), syms[1..], post, k - 1);
    }
  }

  /** A written symbol section parses and gives back every symbol under its position. */
  lemma SymbolsBack(pre: Bytes, syms: seq<Str>, post: Bytes)
    requires |SymbolPayload(syms)| < TWO32 && |syms| < TWO32 && AllCountable(syms)
    ensures var file := pre + Section(SymbolPayload(syms)) + post;
      var t := ParseSymbols(file, |pre|, WRITE_FORMAT);
      && t.Ok? && t.value.count == |syms| && t.value.version == WRITE_FORMAT
      && forall k :: 0 <= k < |syms| ==> Symbol(file, t.value, k) == Ok(syms[k])
  {
    hide ToBe, BeValue, Compute, EncStrs, Walk, Walkable, StringAt, Symbol, ReadSection, NextSymbol;
    var payload := SymbolPayload(syms);
    var file := pre + Section(payload) + post;
    SectionBack(pre, payload, post);
    BeBack(|syms|);
    assert payload[..4] == ToBe(|syms|, 4);
    var head, tail := pre + ToBe(|payload|, 4) + ToBe(|syms|, 4), ToBe(Compute(payload), 4) + post;
    assert file == head + EncStrs(syms) + tail;
    SymbolsWalk(head, syms, tail, |head| + |payload| - 4);
    var t := ParseSymbols(file, |pre|, WRITE_FORMAT).value;
    forall k | 0 <= k < |syms|
      ensures Symbol(file, t, k) == Ok(syms[k])
    {
      SparseIsLinear(file, |pre|, WRITE_FORMAT, k);
      SymbolFound(head, syms, tail, k);
    }
  }

  // ---- Series ----------------------------------------------------------------

  datatype SeriesData = SeriesData(labelRefs: seq<(u32, u32)>, metas: seq<ChunkMeta>)

  datatype SeriesEntry = SeriesEntry(labels: Labels, chunks: seq<ChunkMeta>)

  function EncRefs(rs: seq<(u32, u32)>): Bytes {
    if rs == [] then [] else Varint.Uvarint(rs[0].0) + Varint.Uvarint(rs[0].1) + EncRefs(rs[1..])
  }

  function EncFirstMeta(m: ChunkMeta): Bytes {
    Varint.ZigZagVarint(m.minTime) + Varint.Uvarint(ToU64(m.maxTime - m.minTime)) + Varint.Uvarint(m.ref)
  }

  function EncNextMeta(prev: ChunkMeta, m: ChunkMeta): Bytes {
    Varint.Uvarint(ToU64(m.minTime - prev.maxTime)) + Varint.Uvarint(ToU64(m.maxTime - m.minTime))
    + Varint.ZigZagVarint(ToI64(ToI64(m.ref) - ToI64(prev.ref)))
  }

  function EncMetas(prev: ChunkMeta, ms: seq<ChunkMeta>): Bytes
    decreases |ms|
  {
    if ms == [] then [] else EncNextMeta(prev, ms[0]) + EncMetas(ms[0], ms[1..])
  }

  /** Labels by symbol, then the chunks: the first one in full, each later one by its distance
      from the one before. */
  function SeriesPayload(s: SeriesData): Bytes {
    Varint.Uvarint(|s.labelRefs|) + EncRefs(s.labelRefs) + EncChunks(s.metas)
  }

  function TakeLabelRef(buf: Bytes, file: Bytes, t: SymbolTable): (r: Option<(Label, nat)>)
    ensures r.Some? ==> r.value.1 <= |buf|
  {
    match TakeUvarint(buf)
    case None => None
    case Some((name, i)) =>
      match TakeUvarint(buf[i..])
      case None => None
      case Some((value, j)) =>
        var n, v := Symbol(file, t, name % TWO32), Symbol(file, t, value % TWO32);
        if n.Err? || v.Err? then None else Some((Entry(n.value, v.value), i + j))
  }

  function TakeRefs(buf: Bytes, file: Bytes, t: SymbolTable, count: nat): (r: Option<(seq<Label>, nat)>)
    ensures r.Some? ==> r.value.1 <= |buf|
    decreases count
  {
    hide *;
    if count == 0 then Some(([], 0))
    else
      var l := TakeLabelRef(buf, file, t);
      if l.None? then None
      else
        var ls := TakeRefs(buf[l.value.1..], file, t, count - 1);
        if ls.None? then None else Some(([l.value.0] + ls.value.0, l.value.1 + ls.value.1))
  }

  /** Three numbers: signed, unsigned, unsigned. */
  function TakeFirstNumbers(buf: Bytes): (r: Option<((i64, nat, nat), nat)>)
    ensures r.Some? ==> r.value.1 <= |buf|
  {
    match TakeVarint(buf)
    case None => None
    case Some((x, i)) =>
      match TakeUvarint(buf[i..])
      case None => None
      case Some((y, j)) =>
        match TakeUvarint(buf[i + j..]) case None => None case Some((z, k)) => Some(((x, y, z), i + j + k))
  }

  /** Three numbers: unsigned, unsigned, signed. */
  function TakeNextNumbers(buf: Bytes): (r: Option<((nat, nat, i64), nat)>)
    ensures r.Some? ==> r.value.1 <= |buf|
  {
    match TakeUvarint(buf)
    case None => None
    case Some((x, i)) =>
      match TakeUvarint(buf[i..])
      case None => None
      case Some((y, j)) =>
        match TakeVarint(buf[i + j..]) case None => None case Some((z, k)) => Some(((x, y, z), i + j + k))
  }

  function FirstMeta(mint: i64, d: int, ref: int): ChunkMeta {
    ChunkMeta(mint, ToI64(mint + ToI64(d)), ToU64(ref))
  }

  function NextMeta(prev: ChunkMeta, d: int, e: int, r: int): ChunkMeta {
    var mint := ToI64(prev.maxTime + ToI64(d));
    ChunkMeta(mint, ToI64(mint + ToI64(e)), ToU64(ToI64(ToI64(prev.ref) + r)))
  }

  function TakeFirstMeta(buf: Bytes): (r: Option<(ChunkMeta, nat)>)
    ensures r.Some? ==> r.value.1 <= |buf|
  {
    match TakeFirstNumbers(buf) case None => None case Some(((mint, d, ref), n)) => Some((FirstMeta(mint, d, ref), n))
  }

  function TakeNextMeta(prev: ChunkMeta, buf: Bytes): (r: Option<(ChunkMeta, nat)>)
    ensures r.Some? ==> r.value.1 <= |buf|
  {
    match TakeNextNumbers(buf) case None => None case Some(((d, e, r), n)) => Some((NextMeta(prev, d, e, r), n))
  }

  function TakeMetas(prev: ChunkMeta, buf: Bytes, count: nat): Option<seq<ChunkMeta>>
    decreases count
  {
    if count == 0 then Some([])
    else match TakeNextMeta(prev, buf)
      case None => None
      case Some((m, k)) =>
        match TakeMetas(m, buf[k..], count - 1) case None => None case Some(ms) => Some([m] + ms)
  }

  function TakeChunkList(buf: Bytes, count: nat): Option<seq<ChunkMeta>>
    requires count > 0
  {
    match TakeFirstMeta(buf)
    case None => None
    case Some((m, j)) =>
      match TakeMetas(m, buf[j..], count - 1) case None => None case Some(ms) => Some([m] + ms)
  }

  function TakeChunks(buf: Bytes): Option<seq<ChunkMeta>> {
    match TakeUvarint(buf)
    case None => None
    case Some((count, i)) => if count == 0 then Some([]) else TakeChunkList(buf[i..], count)
  }

  function DecodeSeriesPayload(payload: Bytes, file: Bytes, t: SymbolTable): Result<SeriesEntry, IndexError> {
    match TakeUvarint(payload)
    case None => Err(IllegalBytes)
    case Some((count, i)) =>
      match TakeRefs(payload[i..], file, t, count)
      case None => Err(IllegalBytes)
      case Some((ls, j)) =>
        match TakeChunks(payload[i + j..])
        case None => Err(IllegalBytes)
        case Some(ms) => Ok(SeriesEntry(Canonicalized(ls), ms))
  }

  /** Labels a list of references stands for. */
  function Resolved(rs: seq<(u32, u32)>, syms: seq<Str>): seq<Label>
    requires forall i :: 0 <= i < |rs| ==> rs[i].0 < |syms| && rs[i].1 < |syms|
  {
    if rs == [] then [] else [Entry(syms[rs[0].0], syms[rs[0].1])] + Resolved(rs[1..], syms)
  }

  /** A table that gives each of these symbols. */
  predicate Knows(file: Bytes, t: SymbolTable, syms: seq<Str>) {
    forall k :: 0 <= k < |syms| ==> Symbol(file, t, k) == Ok(syms[k])
  }

  lemma TwoFields(a: Bytes, b: Bytes, tail: Bytes)
    ensures var s := a + b + tail; s == a + (b + tail) && s[|a|..] == b + tail && s[|a| + |b|..] == tail
  {
  }

  lemma LabelRefBack(r: (u32, u32), file: Bytes, t: SymbolTable, syms: seq<Str>, tail: Bytes)
    requires Knows(file, t, syms) && r.0 < |syms| && r.1 < |syms|
    ensures TakeLabelRef(Varint.Uvarint(r.0) + Varint.Uvarint(r.1) + tail, file, t)
         == Some((Entry(syms[r.0], syms[r.1]), |Varint.Uvarint(r.0) + Varint.Uvarint(r.1)|))
  {
    hide TakeUvarint, Varint.Uvarint, Symbol;
    var a, b := Varint.Uvarint(r.0), Varint.Uvarint(r.1);
    TwoFields(a, b, tail);
    UvarintBack(r.0, b + tail);
    UvarintBack(r.1, tail);
  }

  lemma {:induction false} RefsBack(rs: seq<(u32, u32)>, file: Bytes, t: SymbolTable, syms: seq<Str>, tail: Bytes)
    requires Knows(file, t, syms) && forall i :: 0 <= i < |rs| ==> rs[i].0 < |syms| && rs[i].1 < |syms|
    ensures TakeRefs(EncRefs(rs) + tail, file, t, |rs|) == Some((Resolved(rs, syms), |EncRefs(rs)|))
    decreases |rs|
  {
    hide TakeLabelRef, Varint.Uvarint, Symbol, Knows;
    if rs != [] {
      var a, rest := Varint.Uvarint(rs[0].0) + Varint.Uvarint(rs[0].1), EncRefs(rs[1..]);
      LabelRefBack(rs[0], file, t, syms, rest + tail);
      TwoFields(a, rest, tail);
      RefsBack(rs[1..], file, t, syms, tail);
    }
  }

  lemma ThreeFields(a: Bytes, b: Bytes, c: Bytes, tail: Bytes)
    ensures var s := a + b + c + tail;
      s == a + (b + c + tail) && s[|a|..] == b + (c + tail) && s[|a| + |b|..] == c + tail && s[|a| + |b| + |c|..] == tail
  {
  }

  lemma FirstNumbersBack(x: i64, y: u64, z: u64, tail: Bytes)
    ensures var e := Varint.ZigZagVarint(x) + Varint.Uvarint(y) + Varint.Uvarint(z);
      TakeFirstNumbers(e + tail) == Some(((x, y, z), |e|))
  {
    hide TakeUvarint, TakeVarint, Varint.Uvarint, Varint.ZigZagVarint;
    var a, b, c := Varint.ZigZagVarint(x), Varint.Uvarint(y), Varint.Uvarint(z);
    ThreeFields(a, b, c, tail);
    VarintBack(x, b + c + tail);
    UvarintBack(y, c + tail);
    UvarintBack(z, tail);
  }

  lemma NextNumbersBack(x: u64, y: u64, z: i64, tail: Bytes)
    ensures var e := Varint.Uvarint(x) + Varint.Uvarint(y) + Varint.ZigZagVarint(z);
      TakeNextNumbers(e + tail) == Some(((x, y, z), |e|))
  {
    hide TakeUvarint, TakeVarint, Varint.Uvarint, Varint.ZigZagVarint;
    var a, b, c := Varint.Uvarint(x), Varint.Uvarint(y), Varint.ZigZagVarint(z);
    ThreeFields(a, b, c, tail);
    UvarintBack(x, b + c + tail);
    UvarintBack(y, c + tail);
    VarintBack(z, tail);
  }

  lemma FirstMetaBack(m: ChunkMeta, tail: Bytes)
    ensures TakeFirstMeta(EncFirstMeta(m) + tail) == Some((m, |EncFirstMeta(m)|))
  {
    hide TakeFirstNumbers, Varint.Uvarint, Varint.ZigZagVarint, ToI64;
    FirstNumbersBack(m.minTime, ToU64(m.maxTime - m.minTime), m.ref, tail);
    WrapAddBack(m.maxTime, m.minTime);
  }

  lemma NextMetaRestores(prev: ChunkMeta, m: ChunkMeta)
    ensures NextMeta(prev, ToU64(m.minTime - prev.maxTime), ToU64(m.maxTime - m.minTime), ToI64(ToI64(m.ref) - ToI64(prev.ref)))
         == m
  {
    hide ToI64, ToU64;
    WrapAddBack(m.minTime, prev.maxTime);
    WrapAddBack(m.maxTime, m.minTime);
    RefBack(m.ref, prev.ref);
  }

  lemma NextMetaBack(prev: ChunkMeta, m: ChunkMeta, tail: Bytes)
    ensures TakeNextMeta(prev, EncNextMeta(prev, m) + tail) == Some((m, |EncNextMeta(prev, m)|))
  {
    hide TakeNextNumbers, Varint.Uvarint, Varint.ZigZagVarint, ToI64, ToU64, NextMeta;
    NextNumbersBack(ToU64(m.minTime - prev.maxTime), ToU64(m.maxTime - m.minTime), ToI64(ToI64(m.ref) - ToI64(prev.ref)), tail);
    NextMetaRestores(prev, m);
  }

  lemma {:induction false} MetasBack(prev: ChunkMeta, ms: seq<ChunkMeta>, tail: Bytes)
    ensures TakeMetas(prev, EncMetas(prev, ms) + tail, |ms|) == Some(ms)
    decreases |ms|
  {
    hide TakeNextMeta, EncNextMeta;
    if ms != [] {
      var a, rest := EncNextMeta(prev, ms[0]), EncMetas(ms[0], ms[1..]);
      NextMetaBack(prev, ms[0], rest + tail);
      TwoFields(a, rest, tail);
      MetasBack(ms[0], ms[1..], tail);
      assert [ms[0]] + ms[1..] == ms;
    }
  }

  lemma ChunkListBack(ms: seq<ChunkMeta>)
    requires ms != []
    ensures TakeChunkList(EncFirstMeta(ms[0]) + EncMetas(ms[0], ms[1..]), |ms|) == Some(ms)
  {
    hide TakeFirstMeta, EncFirstMeta, TakeMetas, EncMetas;
    var b, c := EncFirstMeta(ms[0]), EncMetas(ms[0], ms[1..]);
    TwoFields(b, c, []);
    assert c + [] == c;
    FirstMetaBack(ms[0], c);
    MetasBack(ms[0], ms[1..], []);
    assert [ms[0]] + ms[1..] == ms;
  }

  function EncChunks(ms: seq<ChunkMeta>): Bytes {
    Varint.Uvarint(|ms|) + (if ms == [] then [] else EncFirstMeta(ms[0]) + EncMetas(ms[0], ms[1..]))
  }

  lemma ChunksBack(ms: seq<ChunkMeta>)
    requires |ms| < TWO64
    ensures TakeChunks(EncChunks(ms)) == Some(ms)
  {
    hide TakeUvarint, Varint.Uvarint, TakeChunkList, EncFirstMeta, EncMetas;
    var list := if ms == [] then [] else EncFirstMeta(ms[0]) + EncMetas(ms[0], ms[1..]);
    UvarintBack(|ms|, list);
    TwoFields(Varint.Uvarint(|ms|), list, []);
    assert list + [] == list;
    if ms != [] {
      ChunkListBack(ms);
    }
  }

  /** A written series gives back its labels and its chunks. */
  lemma SeriesPayloadBack(s: SeriesData, file: Bytes, t: SymbolTable, syms: seq<Str>)
    requires Knows(file, t, syms) && forall i :: 0 <= i < |s.labelRefs| ==> s.labelRefs[i].0 < |syms| && s.labelRefs[i].1 < |syms|
    requires |s.labelRefs| < TWO64 && |s.metas| < TWO64
    ensures DecodeSeriesPayload(SeriesPayload(s), file, t) == Ok(SeriesEntry(Canonicalized(Resolved(s.labelRefs, syms)), s.metas))
  {
    hide TakeUvarint, Varint.Uvarint, TakeRefs, EncRefs, TakeChunks, EncChunks, Knows, Canonicalized, Resolved;
    var a, b, c := Varint.Uvarint(|s.labelRefs|), EncRefs(s.labelRefs), EncChunks(s.metas);
    TwoFields(a, b, c);
    UvarintBack(|s.labelRefs|, b + c);
    RefsBack(s.labelRefs, file, t, syms, c);
    ChunksBack(s.metas);
  }
}
