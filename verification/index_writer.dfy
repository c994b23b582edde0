/** The staged index writer: sections are begun with placeholders and patched when they end. */
module IndexWriters {
  import opened Words
  import opened Wrappers
  import opened BigEndian
  import opened Crc32c
  import opened LabelSets
  import opened WalRecords
  import opened Queries
  import opened IndexFormat
  import opened IndexFiles

  datatype Stage = SymbolsStage | SeriesStage | PostingsStage | DoneStage

  const START: Bytes := INDEX_MAGIC + [WRITE_FORMAT]

  // ---- What each step writes -------------------------------------------------

  lemma {:induction false} EncStrsSnoc(ss: seq<Str>, s: Str)
    ensures EncStrs(ss + [s]) == EncStrs(ss) + EncStr(s)
    decreases |ss|
  {
    hide EncStr;
    if ss == [] {
      assert ([] + [s])[1..] == [];
      assert EncStrs([s]) == EncStr(s) + EncStrs([s][1..]);
    } else {
      assert (ss + [s])[1..] == ss[1..] + [s];
      EncStrsSnoc(ss[1..], s);
      assert EncStr(ss[0]) + (EncStrs(ss[1..]) + EncStr(s)) == EncStr(ss[0]) + EncStrs(ss[1..]) + EncStr(s);
    }
  }

  /** Four bytes hold a number cut to 32 bits. */
  lemma ToBeCut(x: nat)
    ensures ToBe(x % TWO32, 4) == ToBe(x, 4)
  {
    FourAtEnd(x, 0);
    FourAtEnd(x % TWO32, 0);
    var r := x % TWO32;
    CutDigits(x / TWO32, r, 0x100_0000, 0x100);
    CutDigits(x / TWO32, r, 0x1_0000, 0x1_0000);
    CutDigits(x / TWO32, r, 0x100, 0x100_0000);
    CutDigits(x / TWO32, r, 1, TWO32);
  }

  /** Digits below the cut do not see what is above it. */
  lemma CutDigits(q: nat, r: nat, d: nat, m: nat)
    requires d > 0 && m % 0x100 == 0 && d * m == TWO32
    ensures (q * TWO32 + r) / d % 0x100 == r / d % 0x100
  {
    MulAssoc(q, m, d);
    SplitDigits(q * m, r, d);
    MulAssoc(q, m / 0x100, 0x100);
    AddMultiple(r / d, q * (m / 0x100));
  }

  lemma SplitDigits(a: nat, r: nat, d: nat)
    requires d > 0
    ensures (a * d + r) / d == a + r / d
  {
    DivUnique(a * d + r, d, a + r / d, r % d) by {
      Distribute(a, r / d, d);
    }
  }

  lemma Distribute(a: int, b: int, d: int)
    ensures (a + b) * d == a * d + b * d
  {
  }

  lemma MulAssoc(q: int, m: int, d: int)
    ensures q * m * d == q * (d * m)
  {
  }

  lemma AddMultiple(a: nat, k: nat)
    ensures (k * 0x100 + a) % 0x100 == a % 0x100
  {
  }

  lemma JoinThree(a: Bytes, b: Bytes, c: Bytes, d: Bytes)
    ensures a + b + c + d == a + (b + c + d)
  {
  }

  lemma SectionParts(pre: Bytes, payload: Bytes)
    ensures pre + ToBe(|payload|, 4) + payload + ToBe(Compute(payload), 4) == pre + Section(payload)
  {
    hide ToBe, Compute;
    assert Section(payload) == ToBe(|payload|, 4) + payload + ToBe(Compute(payload), 4);
    hide *;
    JoinThree(pre, ToBe(|payload|, 4), payload, ToBe(Compute(payload), 4));
  }

  // ---- The writer ------------------------------------------------------------

  class IndexWriter {
    var buf: Bytes
    var stage: Stage
    var nextSymRef: nat
    var lastSymbol: Str
    var anySymbol: bool
    var symbolsLenOff: nat
    var toc: Toc
    var seriesCount: nat
    var pending: seq<TableEntry>
    /** What was added so far. */
    ghost var content: IndexContent

    ghost predicate Valid()
      reads this
    {
      && buf == Written()
      && nextSymRef == |content.symbols| % TWO32
      && (anySymbol <==> content.symbols != []) && (anySymbol ==> lastSymbol == content.symbols[|content.symbols| - 1])
      && (anySymbol || stage != SymbolsStage ==> toc.symbols == HEADER_SIZE && symbolsLenOff == HEADER_SIZE + 4)
      && (stage == SymbolsStage ==> content.series == [])
      && (stage == SymbolsStage || stage == SeriesStage ==> content.postings == [])
      && seriesCount == |content.series|
      && (stage != SymbolsStage && content.series != [] ==> toc.series == ToU64(|Padded(Head(content.symbols), SERIES_ALIGN)|))
      && (stage == PostingsStage ==> toc == TocFor(content).(postingsTable := toc.postingsTable))
      && pending == (if stage == PostingsStage || stage == DoneStage then TableOf(content) else [])
    }

    /** The bytes that belong to what was added. */
    ghost function Written(): Bytes
      reads this
    {
      match stage
      case SymbolsStage => if content.symbols == [] then START else START + [0, 0, 0, 0] + [0, 0, 0, 0] + EncStrs(content.symbols)
      case SeriesStage => SeriesBlock(Head(content.symbols), content.series)
      case PostingsStage => BeforeTable(content)
      case DoneStage => IndexFile(content)
    }

    constructor ()
      ensures Valid() && stage == SymbolsStage && content == IndexContent([], [], [])
    {
      buf, stage := START, SymbolsStage;
      nextSymRef, lastSymbol, anySymbol, symbolsLenOff, seriesCount, pending := 0, [], false, 0, 0, [];
      toc := Toc(0, 0, 0, 0, 0, 0);
      content := IndexContent([], [], []);
    }

    method PutBe32(v: u32)
      modifies this`buf
      ensures buf == old(buf) + ToBe(v, 4)
    {
      buf := AppendBe32(buf, v);
    }

    method PutBe64(v: u64)
      modifies this`buf
      ensures buf == old(buf) + ToBe(v, 8)
    {
      buf := AppendBe64(buf, v);
    }

    /** Overwrites four bytes reserved earlier. */
    method PatchBe32(offset: nat, v: u32)
      requires offset + 4 <= |buf|
      modifies this`buf
      ensures buf == old(buf)[..offset] + ToBe(v, 4) + old(buf)[offset + 4..]
    {
      FourBytes(v);
      buf := buf[offset := v / 0x100_0000];
      buf := buf[offset + 1 := v / 0x1_0000 % 256];
      buf := buf[offset + 2 := v / 0x100 % 256];
      buf := buf[offset + 3 := v % 256];
    }

    method AppendCrc(start: nat, end: nat)
      requires start <= end <= |buf|
      modifies this`buf
      ensures buf == old(buf) + ToBe(Compute(old(buf)[start..end]), 4)
    {
      hide ToBe, Compute;
      var crc := ComputeByTable(buf[start..end]);
      PutBe32(crc);
    }

    /** Ends a section begun with a placeholder: patches its length and adds its sum. */
    method EndSection(start: nat, ghost pre: Bytes, ghost payload: Bytes)
      requires buf == pre + [0, 0, 0, 0] + payload && start == |pre|
      modifies this`buf
      ensures buf == pre + Section(payload)
    {
      hide ToBe, Compute, Section;
      var payloadOff, payloadEnd := start + 4, |buf|;
      PatchedList(pre, payload, (payloadEnd - payloadOff) % TWO32);
      PatchBe32(start, (payloadEnd - payloadOff) % TWO32);
      ToBeCut(payloadEnd - payloadOff);
      AppendCrc(payloadOff, payloadEnd);
      SectionParts(pre, payload);
    }

    method PadTo(align: nat)
      requires align > 0
      modifies this`buf
      ensures buf == Padded(old(buf), align)
    {
      var rem := |buf| % align;
      if rem != 0 {
        buf := buf + Zeros(align - rem);
      } else {
        assert buf + Zeros(0) == buf;
      }
    }

    /** Adds one symbol and gives its reference. Only a symbol below the last one is refused. */
    method AddSymbol(sym: Str) returns (r: Result<nat, IndexError>)
      requires Valid() && |sym| < TWO64
      modifies this
      ensures Valid() && stage == old(stage)
      ensures r == if old(stage) != SymbolsStage then Err(NotPermitted)
        else if old(content).symbols != [] && Less(sym, old(content).symbols[|old(content).symbols| - 1]) then Err(InvalidArgument)
        else Ok(|old(content).symbols| % TWO32)
      ensures content == if r.Ok? then old(content).(symbols := old(content).symbols + [sym]) else old(content)
    {
      hide Head, SeriesBlock, PostingsBlock, TocFor, EncStr;
      if stage != SymbolsStage {
        return Err(NotPermitted);
      }
      if anySymbol && Less(sym, lastSymbol) {
        return Err(InvalidArgument);
      }
      EncStrsSnoc(content.symbols, sym);
      if !anySymbol {
        BeginSymbols();
        NoStrs(buf);
      }
      ghost var strs := EncStrs(content.symbols);
      assert buf == START + [0, 0, 0, 0] + [0, 0, 0, 0] + strs;
      JoinLast(START + [0, 0, 0, 0] + [0, 0, 0, 0], strs, EncStr(sym));
      buf := AppendStr(buf, sym);
      anySymbol := true;
      lastSymbol := sym;
      var ref := nextSymRef;
      nextSymRef := (nextSymRef + 1) % TWO32;
      NextMod(|content.symbols|);
      content := content.(symbols := content.symbols + [sym]);
      return Ok(ref);
    }

    /** Reserves the length and the count of the symbol section. */
    method BeginSymbols()
      modifies this`buf, this`toc, this`symbolsLenOff
      ensures buf == old(buf) + [0, 0, 0, 0] + [0, 0, 0, 0]
      ensures toc == old(toc).(symbols := ToU64(|old(buf)|)) && symbolsLenOff == |old(buf)| + 4
    {
      toc := toc.(symbols := ToU64(|buf|));
      PutPlaceholder();
      symbolsLenOff := |buf|;
      PutPlaceholder();
    }

    method PutPlaceholder()
      modifies this`buf
      ensures buf == old(buf) + [0, 0, 0, 0]
    {
      FourBytes(0);
      PutBe32(0);
    }

    /** Ends the symbol section: its count, its length and its sum. */
    method FinishSymbols() returns (r: Result<(), IndexError>)
      requires Valid()
      modifies this
      ensures Valid() && content == old(content)
      ensures if old(stage) == SymbolsStage then r == Ok(()) && stage == SeriesStage else r == Err(NotPermitted) && stage == old(stage)
    {
      hide SeriesBlock, PostingsBlock, TocFor, EncStrs, ToBe, Section, Compute;
      if stage != SymbolsStage {
        return Err(NotPermitted);
      }
      if !anySymbol {
        BeginSymbols();
        NoStrs(buf);
      }
      ghost var strs := EncStrs(content.symbols);
      ghost var payload := SymbolPayload(content.symbols);
      assert buf == START + [0, 0, 0, 0] + [0, 0, 0, 0] + strs;
      PatchedCount(strs, nextSymRef);
      PatchBe32(symbolsLenOff, nextSymRef);
      ToBeCut(|content.symbols|);
      EndSection(toc.symbols, START, payload);
      stage := SeriesStage;
      NoSeries(Head(content.symbols));
      return Ok(());
    }

    /** Adds one series on the next 16-byte boundary and gives its identifier. */
    method AddSeries(labelRefs: seq<(u32, u32)>, metas: seq<ChunkMeta>) returns (r: Result<nat, IndexError>)
      requires Valid() && |labelRefs| < TWO64 && |metas| < TWO64 && |SeriesPayload(SeriesData(labelRefs, metas))| < TWO64
      modifies this
      ensures Valid() && stage == old(stage)
      ensures if old(stage) != SeriesStage then r == Err(NotPermitted) && content == old(content)
        else
          && content == old(content).(series := old(content).series + [SeriesData(labelRefs, metas)])
          && r == Ok(SeriesId(content, |old(content).series|))
    {
      hide Head, SeriesBlock, PostingsBlock, TocFor, SeriesPayload, VarSection, EncStrs, Padded, Section;
      if stage != SeriesStage {
        return Err(NotPermitted);
      }
      SeriesSnoc(Head(content.symbols), content.series, SeriesData(labelRefs, metas));
      NoSeries(Head(content.symbols));
      PadTo(SERIES_ALIGN);
      if seriesCount == 0 {
        toc := toc.(series := ToU64(|buf|));
      }
      var seriesStart := |buf|;
      var payload := BuildSeriesPayload(labelRefs, metas);
      PutVarSection(payload);
      seriesCount := seriesCount + 1;
      content := content.(series := content.series + [SeriesData(labelRefs, metas)]);
      return Ok(seriesStart / SERIES_ALIGN % TWO32);
    }

    /** Length, payload and sum. */
    method PutVarSection(payload: Bytes)
      requires |payload| < TWO64
      modifies this`buf
      ensures buf == old(buf) + VarSection(payload)
    {
      hide ToBe, Compute, Varint.Uvarint, VarSection;
      VarSectionParts(buf, payload);
      buf := AppendUvarint(buf, |payload|);
      var payloadOff := |buf|;
      buf := buf + payload;
      assert buf[payloadOff..payloadOff + |payload|] == payload;
      AppendCrc(payloadOff, payloadOff + |payload|);
    }

    /** Ends the series; the empty label-index sections and the postings start here. */
    method FinishSeries() returns (r: Result<(), IndexError>)
      requires Valid()
      modifies this
      ensures Valid() && content == old(content)
      ensures if old(stage) == SeriesStage then r == Ok(()) && stage == PostingsStage else r == Err(NotPermitted) && stage == old(stage)
    {
      hide Head, SeriesBlock, Padded, EncStrs, ToU64;
      if stage != SeriesStage {
        return Err(NotPermitted);
      }
      if seriesCount == 0 {
        toc := toc.(series := ToU64(|buf|));
        NoSeries(Head(content.symbols));
      }
      PadTo(SERIES_ALIGN);
      toc := toc.(labelIndices := ToU64(|buf|), labelIndicesTable := ToU64(|buf|), postings := ToU64(|buf|));
      stage := PostingsStage;
      return Ok(());
    }

    /** Adds one posting list on the next 4-byte boundary. The identifiers must ascend. */
    method AddPostings(name: Str, value: Str, ids: seq<nat>) returns (r: Result<(), IndexError>)
      requires Valid() && Words32(ids)
      modifies this
      ensures Valid() && stage == old(stage)
      ensures r == if old(stage) != PostingsStage then Err(NotPermitted)
        else if forall i :: 0 < i < |ids| ==> ids[i - 1] < ids[i] then Ok(()) else Err(InvalidArgument)
      ensures content ==
        if r.Ok? then old(content).(postings := old(content).postings + [PostingData(name, value, ids)]) else old(content)
    {
      hide BeforePostings, EncStrs, Padded, Section, Head, SeriesBlock, PostingsBlock, TableEntries, TocFor, PostingPayload;
      if stage != PostingsStage {
        return Err(NotPermitted);
      }
      var i := 1;
      while i < |ids|
        invariant i >= 1 && forall k :: 0 < k < i && k < |ids| ==> ids[k - 1] < ids[k]
      {
        if ids[i] <= ids[i - 1] {
          return Err(InvalidArgument);
        }
        i := i + 1;
      }
      PostingSnoc(BeforePostings(content), content.postings, PostingData(name, value, ids));
      PadTo(4);
      var listOff := |buf|;
      ghost var before := buf;
      PutPlaceholder();
      PutIds(ids);
      EndSection(listOff, before, PostingPayload(ids));
      pending := pending + [TableEntry(name, value, listOff)];
      SameUpToPostings(content, content.postings + [PostingData(name, value, ids)]);
      content := content.(postings := content.postings + [PostingData(name, value, ids)]);
      return Ok(());
    }

    /** The count and the identifiers of a posting list. */
    method PutIds(ids: seq<nat>)
      requires Words32(ids)
      modifies this`buf
      ensures buf == old(buf) + PostingPayload(ids)
    {
      hide ToBe;
      ToBeCut(|ids|);
      PutBe32(|ids| % TWO32);
      ghost var start := buf;
      for i := 0 to |ids|
        invariant buf == start + EncIds(ids[..i])
      {
        assert ids[..i + 1][..i] == ids[..i];
        PutBe32(ids[i]);
      }
      assert ids[..|ids|] == ids;
    }

    /** The postings table and the table of contents. */
    method Close() returns (r: Result<(), IndexError>)
      requires Valid()
      requires forall e :: e in pending ==> CountableEntry(e)
      modifies this
      ensures Valid() && content == old(content)
      ensures if old(stage) == PostingsStage then r == Ok(()) && stage == DoneStage && buf == IndexFile(content)
        else r == Err(NotPermitted) && stage == old(stage)
    {
      hide ToBe, Compute, EncStrs, Section, Head, SeriesBlock, PostingsBlock, EncTable, TocBody, CountableEntry, Padded;
      if stage != PostingsStage {
        return Err(NotPermitted);
      }
      ghost var before := buf;
      toc := toc.(postingsTable := ToU64(|buf|));
      var tableOff := |buf|;
      PutPlaceholder();
      PutTable();
      EndSection(tableOff, before, TablePayload(pending));
      PutToc();
      stage := DoneStage;
      return Ok(());
    }

    /** The count and the entries of the postings table. */
    method PutTable()
      requires forall e :: e in pending ==> CountableEntry(e)
      modifies this`buf
      ensures buf == old(buf) + TablePayload(pending)
    {
      hide ToBe, Varint.Uvarint, EncStr, EncTable;
      ToBeCut(|pending|);
      PutBe32(|pending| % TWO32);
      ghost var start := buf;
      assert pending[0..] == pending;
      for i := 0 to |pending|
        invariant buf + EncTable(pending[i..]) == start + EncTable(pending)
      {
        var e := pending[i];
        assert e in pending;
        TableFrom(pending, i);
        ghost var was := buf;
        FourInOrder(was, Varint.Uvarint(2), EncStr(e.name), EncStr(e.value), Varint.Uvarint(e.offset));
        Regroup3(was, EncTableEntry(e), EncTable(pending[i + 1..]), []);
        buf := AppendUvarint(buf, 2);
        buf := AppendStr(buf, e.name);
        buf := AppendStr(buf, e.value);
        buf := AppendUvarint(buf, e.offset);
      }
      NoEntries(pending, buf);
    }

    method PutToc()
      modifies this`buf
      ensures buf == old(buf) + TocBytes(toc)
    {
      hide ToBe, Compute;
      var tocStart := |buf|;
      ghost var before := buf;
      PutBe64(toc.symbols);
      PutBe64(toc.series);
      PutBe64(toc.labelIndices);
      PutBe64(toc.labelIndicesTable);
      PutBe64(toc.postings);
      PutBe64(toc.postingsTable);
      assert buf == before + TocBody(toc);
      assert buf[tocStart..tocStart + 48] == TocBody(toc);
      AppendCrc(tocStart, tocStart + 48);
    }
  }

  // ---- Steps of the writer, on values ----------------------------------------

  lemma NextMod(n: nat)
    ensures (n % TWO32 + 1) % TWO32 == (n + 1) % TWO32
  {
  }

  lemma JoinLast(a: Bytes, b: Bytes, c: Bytes)
    ensures a + b + c == a + (b + c)
  {
  }

  /** Posting lists change nothing before them. */
  lemma SameUpToPostings(c: IndexContent, ps: seq<PostingData>)
    ensures BeforePostings(c.(postings := ps)) == BeforePostings(c)
    ensures TocFor(c.(postings := ps)) == TocFor(c).(postingsTable := TocFor(c.(postings := ps)).postingsTable)
  {
    hide Head, SeriesBlock, Padded, PostingsBlock;
  }

  lemma NoStrs(buf: Bytes)
    ensures EncStrs([]) == [] && buf == buf + EncStrs([])
  {
  }

  lemma NoSeries(base: Bytes)
    ensures SeriesBlock(base, []) == base
  {
  }

  lemma PatchedCount(strs: Bytes, count: u32)
    ensures var b := START + [0, 0, 0, 0] + [0, 0, 0, 0] + strs;
      && |b| >= 13
      && b[..9] + ToBe(count, 4) + b[13..] == START + [0, 0, 0, 0] + (ToBe(count, 4) + strs)
  {
    hide ToBe;
    var b := START + [0, 0, 0, 0] + [0, 0, 0, 0] + strs;
    assert b[..9] == START + [0, 0, 0, 0] && b[13..] == strs;
  }

  lemma PatchedList(pre: Bytes, payload: Bytes, len: u32)
    ensures var b, n := pre + [0, 0, 0, 0] + payload, |pre|;
      && b[..n] + ToBe(len, 4) + b[n + 4..] == pre + ToBe(len, 4) + payload
      && (pre + ToBe(len, 4) + payload)[n + 4..n + 4 + |payload|] == payload
  {
    hide ToBe;
    var b, n := pre + [0, 0, 0, 0] + payload, |pre|;
    assert b[..n] == pre && b[n + 4..] == payload;
  }

  lemma SeriesSnoc(base: Bytes, ss: seq<SeriesData>, s: SeriesData)
    ensures SeriesBlock(base, ss + [s]) == Padded(SeriesBlock(base, ss), SERIES_ALIGN) + VarSection(SeriesPayload(s))
    ensures (ss + [s])[..|ss|] == ss
  {
    hide VarSection, SeriesPayload, Padded;
    assert (ss + [s])[..|ss|] == ss;
  }

  lemma VarSectionParts(pre: Bytes, payload: Bytes)
    ensures pre + Varint.Uvarint(|payload|) + payload + ToBe(Compute(payload), 4) == pre + VarSection(payload)
  {
    hide ToBe, Compute, Varint.Uvarint;
    assert VarSection(payload) == Varint.Uvarint(|payload|) + payload + ToBe(Compute(payload), 4);
    hide *;
    JoinThree(pre, Varint.Uvarint(|payload|), payload, ToBe(Compute(payload), 4));
  }

  lemma PostingSnoc(base: Bytes, ps: seq<PostingData>, p: PostingData)
    ensures PostingsBlock(base, ps + [p]) == Padded(PostingsBlock(base, ps), 4) + Section(PostingPayload(p.ids))
    ensures TableEntries(base, ps + [p]) ==
      TableEntries(base, ps) + [TableEntry(p.name, p.value, |Padded(PostingsBlock(base, ps), 4)|)]
  {
    hide Section, PostingPayload, Padded;
    assert (ps + [p])[..|ps|] == ps;
  }

  lemma TableFrom(es: seq<TableEntry>, i: nat)
    requires i < |es|
    ensures EncTable(es[i..]) == EncTableEntry(es[i]) + EncTable(es[i + 1..])
  {
    hide EncTableEntry;
    assert es[i..][1..] == es[i + 1..];
  }

  lemma NoEntries(es: seq<TableEntry>, buf: Bytes)
    ensures buf + EncTable(es[|es|..]) == buf
  {
  }

  // ---- The payload of a series -----------------------------------------------

  method AppendRefs(buf: Bytes, rs: seq<(u32, u32)>) returns (out: Bytes)
    ensures out == buf + EncRefs(rs)
  {
    hide Varint.Uvarint, EncRefs;
    out := buf;
    assert rs[0..] == rs;
    for i := 0 to |rs|
      invariant out + EncRefs(rs[i..]) == buf + EncRefs(rs)
    {
      RefsFrom(rs, i);
      Regroup3(out, Varint.Uvarint(rs[i].0), Varint.Uvarint(rs[i].1), EncRefs(rs[i + 1..]));
      out := AppendUvarint(out, rs[i].0);
      out := AppendUvarint(out, rs[i].1);
    }
    NoRefs(rs, out);
  }

  lemma RefsFrom(rs: seq<(u32, u32)>, i: nat)
    requires i < |rs|
    ensures EncRefs(rs[i..]) == Varint.Uvarint(rs[i].0) + Varint.Uvarint(rs[i].1) + EncRefs(rs[i + 1..])
  {
    hide Varint.Uvarint;
    assert rs[i..][1..] == rs[i + 1..];
  }

  lemma NoRefs(rs: seq<(u32, u32)>, out: Bytes)
    ensures out + EncRefs(rs[|rs|..]) == out
  {
  }

  method AppendFirstMeta(buf: Bytes, m: ChunkMeta) returns (out: Bytes)
    ensures out == buf + EncFirstMeta(m)
  {
    hide Varint.Uvarint, Varint.ZigZagVarint;
    var d := ToU64(m.maxTime - m.minTime);
    Regroup3(buf, Varint.ZigZagVarint(m.minTime), Varint.Uvarint(d), Varint.Uvarint(m.ref));
    out := AppendVarint(buf, m.minTime);
    out := AppendUvarint(out, d);
    out := AppendUvarint(out, m.ref);
  }

  method AppendNextMeta(buf: Bytes, t0: i64, ref0: i64, m: ChunkMeta, ghost prev: ChunkMeta) returns (out: Bytes)
    requires t0 == prev.maxTime && ref0 == ToI64(prev.ref)
    ensures out == buf + EncNextMeta(prev, m)
  {
    hide Varint.Uvarint, Varint.ZigZagVarint, ToI64;
    var d, e, r := ToU64(m.minTime - t0), ToU64(m.maxTime - m.minTime), ToI64(ToI64(m.ref) - ref0);
    Regroup3(buf, Varint.Uvarint(d), Varint.Uvarint(e), Varint.ZigZagVarint(r));
    out := AppendUvarint(buf, d);
    out := AppendUvarint(out, e);
    out := AppendVarint(out, r);
  }

  method BuildSeriesPayload(labelRefs: seq<(u32, u32)>, metas: seq<ChunkMeta>) returns (payload: Bytes)
    requires |labelRefs| < TWO64 && |metas| < TWO64
    ensures payload == SeriesPayload(SeriesData(labelRefs, metas))
  {
    hide Varint.Uvarint, EncRefs, EncFirstMeta, EncNextMeta, EncMetas, ToI64;
    payload := AppendUvarint([], |labelRefs|);
    payload := AppendRefs(payload, labelRefs);
    payload := AppendUvarint(payload, |metas|);
    ghost var start := payload;
    if metas != [] {
      var first := metas[0];
      payload := AppendFirstMeta(payload, first);
      ghost var head := payload;
      var t0, ref0 := first.maxTime, ToI64(first.ref);
      for i := 1 to |metas|
        invariant t0 == metas[i - 1].maxTime && ref0 == ToI64(metas[i - 1].ref)
        invariant payload + EncMetas(metas[i - 1], metas[i..]) == head + EncMetas(metas[0], metas[1..])
      {
        MetasFrom(metas, i);
        Regroup3(payload, EncNextMeta(metas[i - 1], metas[i]), EncMetas(metas[i], metas[i + 1..]), []);
        payload := AppendNextMeta(payload, t0, ref0, metas[i], metas[i - 1]);
        t0, ref0 := metas[i].maxTime, ToI64(metas[i].ref);
      }
      NoMetas(metas, payload);
      assert payload == start + (EncFirstMeta(first) + EncMetas(metas[0], metas[1..]));
    }
    PayloadParts(labelRefs, metas, start, payload);
  }

  lemma PayloadParts(labelRefs: seq<(u32, u32)>, metas: seq<ChunkMeta>, start: Bytes, payload: Bytes)
    requires start == [] + Varint.Uvarint(|labelRefs|) + EncRefs(labelRefs) + Varint.Uvarint(|metas|)
    requires payload == if metas == [] then start else start + (EncFirstMeta(metas[0]) + EncMetas(metas[0], metas[1..]))
    ensures payload == SeriesPayload(SeriesData(labelRefs, metas))
  {
    hide Varint.Uvarint, EncRefs, EncFirstMeta, EncMetas;
    var list := if metas == [] then [] else EncFirstMeta(metas[0]) + EncMetas(metas[0], metas[1..]);
    JoinFour(Varint.Uvarint(|labelRefs|), EncRefs(labelRefs), Varint.Uvarint(|metas|), list);
    assert EncChunks(metas) == Varint.Uvarint(|metas|) + list;
  }

  lemma JoinFour(a: Bytes, b: Bytes, c: Bytes, d: Bytes)
    ensures [] + a + b + c + d == a + b + (c + d)
    ensures d == [] ==> [] + a + b + c == [] + a + b + c + d
  {
  }

  lemma MetasFrom(ms: seq<ChunkMeta>, i: nat)
    requires 0 < i < |ms|
    ensures EncMetas(ms[i - 1], ms[i..]) == EncNextMeta(ms[i - 1], ms[i]) + EncMetas(ms[i], ms[i + 1..])
  {
    hide EncNextMeta;
    assert ms[i..][1..] == ms[i + 1..];
  }

  lemma NoMetas(ms: seq<ChunkMeta>, payload: Bytes)
    requires ms != []
    ensures payload + EncMetas(ms[|ms| - 1], ms[|ms|..]) == payload
  {
  }
}
