/** The index reader's loops, each proved against what the file holds. */
module IndexReaders {
  import opened Words
  import opened Wrappers
  import opened Sorting
  import opened SortedSets
  import opened Crc32c
  import opened LabelSets
  import opened WalRecords
  import opened Queries
  import opened IndexFormat
  import opened IndexFiles

  // ---- Sections --------------------------------------------------------------

  method ReadSectionPayload(file: Bytes, off: nat) returns (r: Result<Bytes, IndexError>)
    ensures r == ReadSection(file, off)
  {
    hide Compute, BeValue;
    if off + 4 > |file| {
      return Err(IllegalBytes);
    }
    var len, payloadOff := BeValue(file[off..off + 4]), off + 4;
    if payloadOff + len + 4 > |file| {
      return Err(IllegalBytes);
    }
    var payload := file[payloadOff..payloadOff + len];
    var sum := ComputeByTable(payload);
    if sum != BeValue(file[payloadOff + len..payloadOff + len + 4]) {
      return Err(IllegalBytes);
    }
    return Ok(payload);
  }

  method ReadVarSectionPayload(file: Bytes, off: nat) returns (r: Result<Bytes, IndexError>)
    ensures r == ReadVarSection(file, off)
  {
    hide Compute, BeValue, Varint.DecodeUvarint;
    if off >= |file| {
      return Err(IllegalBytes);
    }
    var len := Varint.ReadUvarint(file[off..]);
    if len.Err? {
      return Err(IllegalBytes);
    }
    var payloadOff, n := off + len.value.1, len.value.0;
    if payloadOff + n + 4 > |file| {
      return Err(IllegalBytes);
    }
    var payload := file[payloadOff..payloadOff + n];
    var sum := ComputeByTable(payload);
    if sum != BeValue(file[payloadOff + n..payloadOff + n + 4]) {
      return Err(IllegalBytes);
    }
    return Ok(payload);
  }

  method ReadToc(file: Bytes) returns (r: Result<Toc, IndexError>)
    ensures r == ParseToc(file)
  {
    hide Compute, BeValue, TocOf;
    if |file| < TOC_SIZE {
      return Err(IllegalBytes);
    }
    var b := file[|file| - TOC_SIZE..];
    var sum := ComputeByTable(b[..48]);
    if sum != BeValue(b[48..52]) {
      return Err(IllegalBytes);
    }
    return Ok(TocOf(b[..48]));
  }

  // ---- Symbols ---------------------------------------------------------------

  /** One step over a symbol. */
  method StepSymbol(file: Bytes, pos: nat) returns (r: Option<nat>)
    ensures r == NextSymbol(file, pos)
  {
    hide Varint.DecodeUvarint;
    if pos > |file| {
      return None;
    }
    var v := Varint.ReadUvarint(file[pos..]);
    if v.Err? {
      return None;
    }
    return Some(pos + v.value.1 + v.value.0);
  }

  lemma WalkSnoc(file: Bytes, start: nat, k: nat)
    requires Walk(file, start, k).Some?
    ensures Walk(file, start, k + 1) == NextSymbol(file, Walk(file, start, k).value)
  {
    hide NextSymbol;
    WalkAdd(file, start, k, 1);
    var p := Walk(file, start, k).value;
    assert Walk(file, p, 1) == match NextSymbol(file, p) case None => None case Some(q) => Walk(file, q, 0);
  }

  lemma SparseSnoc(file: Bytes, start: nat, seen: nat)
    ensures SparseOf(file, start, seen + 1) ==
      if seen % STRIDE == 0 then SparseOf(file, start, seen) + [PosOf(file, start, seen)] else SparseOf(file, start, seen)
  {
    hide Walk;
    if seen % STRIDE == 0 {
      BucketStep(seen);
    } else {
      assert Buckets(seen + 1) == Buckets(seen);
    }
  }

  lemma BucketStep(seen: nat)
    requires seen % STRIDE == 0
    ensures Buckets(seen + 1) == Buckets(seen) + 1 && STRIDE * Buckets(seen) == seen
  {
  }

  /** Walks every symbol once, keeping the position of every 32nd. */
  method ParseSymbolTable(file: Bytes, off: nat, version: byte) returns (r: Result<SymbolTable, IndexError>)
    ensures r == ParseSymbols(file, off, version)
  {
    hide BeValue, NextSymbol, ReadSection, Buckets, SparseOf;
    var section := ReadSectionPayload(file, off);
    if section.Err? {
      return Err(section.error);
    }
    var payload := section.value;
    if |payload| < 4 {
      return Err(IllegalBytes);
    }
    var count, start := BeValue(payload[..4]), off + 8;
    var limit := start + |payload| - 4;
    var offsets: seq<nat> := [];
    var pos, seen := start, 0;
    NoBuckets(file, start);
    while seen < count
      invariant seen <= count && Walk(file, start, seen) == Some(pos)
      invariant Walkable(file, start, limit, count) == Walkable(file, pos, limit, count - seen)
      invariant offsets == SparseOf(file, start, seen)
    {
      SparseSnoc(file, start, seen);
      if seen % STRIDE == 0 {
        offsets := offsets + [pos];
      }
      WalkSnoc(file, start, seen);
      var next := StepSymbol(file, pos);
      if next.None? {
        return Err(IllegalBytes);
      }
      if next.value > limit {
        return Err(IllegalBytes);
      }
      pos, seen := next.value, seen + 1;
    }
    return Ok(SymbolTable(version, count, start, offsets));
  }

  lemma NoBuckets(file: Bytes, start: nat)
    ensures SparseOf(file, start, 0) == []
  {
  }

  /** A symbol by reference. */
  method LookupSymbol(file: Bytes, t: SymbolTable, ref: nat) returns (r: Result<Str, IndexError>)
    ensures r == Symbol(file, t, ref)
  {
    hide NextSymbol, Walk, StringAt;
    var pos: nat := 0;
    if t.version == 1 {
      pos := ref;
      if pos >= |file| {
        return Err(IllegalBytes);
      }
    } else {
      if ref >= t.count {
        return Err(OutOfRange);
      }
      var bucket, within := ref / STRIDE, ref % STRIDE;
      if bucket >= |t.sparse| {
        return Err(IllegalBytes);
      }
      pos := t.sparse[bucket];
      for i := 0 to within
        invariant Walk(file, t.sparse[bucket], within) == Walk(file, pos, within - i)
      {
        WalkStep(file, pos, within - i);
        var next := StepSymbol(file, pos);
        if next.None? {
          return Err(IllegalBytes);
        }
        pos := next.value;
      }
      WalkNothing(file, pos);
    }
    r := ReadString(file, pos);
  }

  lemma WalkStep(file: Bytes, pos: nat, n: nat)
    requires n > 0
    ensures Walk(file, pos, n) == match NextSymbol(file, pos) case None => None case Some(p) => Walk(file, p, n - 1)
  {
    hide NextSymbol;
  }

  lemma WalkNothing(file: Bytes, pos: nat)
    ensures Walk(file, pos, 0) == Some(pos)
  {
  }

  method ReadString(file: Bytes, pos: nat) returns (r: Result<Str, IndexError>)
    ensures r == StringAt(file, pos)
  {
    hide Varint.DecodeUvarint;
    if pos > |file| {
      return Err(IllegalBytes);
    }
    var v := Varint.ReadUvarint(file[pos..]);
    if v.Err? {
      return Err(IllegalBytes);
    }
    var start, len := pos + v.value.1, v.value.0;
    if start + len > |file| {
      return Err(IllegalBytes);
    }
    assert file[pos..][v.value.1..v.value.1 + len] == file[start..start + len];
    return Ok(file[start..start + len]);
  }

  /** Every symbol in stored order: what the references stand for, found without the table. */
  method AllSymbols(file: Bytes, off: nat, version: byte) returns (out: seq<Str>)
    requires ParseSymbols(file, off, version).Ok?
    ensures var t := ParseSymbols(file, off, version).value;
      |out| <= t.count && forall k :: 0 <= k < |out| ==> LinearSymbol(file, t, k) == Ok(out[k])
    ensures |out| == ParseSymbols(file, off, version).value.count
  {
    hide NextSymbol, Walk, Walkable, StringAt, BeValue, ReadSection, SparseOf;
    var table := ParseSymbolTable(file, off, version);
    var t := table.value;
    ghost var limit := t.start + |ReadSection(file, off).value| - 4;
    out := [];
    var pos := t.start;
    WalkNothing(file, pos);
    for i := 0 to t.count
      invariant |out| == i && Walk(file, t.start, i) == Some(pos)
      invariant forall k :: 0 <= k < i ==> LinearSymbol(file, t, k) == Ok(out[k])
    {
      WalkableWalks(file, t.start, limit, t.count, i + 1);
      WalkSnoc(file, t.start, i);
      SymbolWithin(file, t.start, limit, t.count, i);
      StringThere(file, pos);
      var s := ReadString(file, pos);
      out := out + [s.value];
      var next := StepSymbol(file, pos);
      pos := next.value;
    }
  }

  lemma {:induction false} SymbolWithin(file: Bytes, pos: nat, limit: nat, n: nat, k: nat)
    requires Walkable(file, pos, limit, n) && k < n
    ensures Walk(file, pos, k).Some? && NextSymbol(file, Walk(file, pos, k).value).Some?
    ensures NextSymbol(file, Walk(file, pos, k).value).value <= limit
    decreases n
  {
    hide NextSymbol;
    if k > 0 {
      SymbolWithin(file, NextSymbol(file, pos).value, limit, n - 1, k - 1);
    }
  }

  lemma StringThere(file: Bytes, pos: nat)
    requires NextSymbol(file, pos).Some? && NextSymbol(file, pos).value <= |file|
    ensures StringAt(file, pos).Ok?
  {
    hide Varint.DecodeUvarint;
  }

  // ---- Series ----------------------------------------------------------------

  method ReadLabelRef(payload: Bytes, pos: nat, file: Bytes, t: SymbolTable) returns (r: Option<(Label, nat)>)
    requires pos <= |payload|
    ensures r == match TakeLabelRef(payload[pos..], file, t) case None => None case Some((l, n)) => Some((l, pos + n))
  {
    hide Varint.DecodeUvarint, Symbol;
    var name := Varint.ReadUvarint(payload[pos..]);
    if name.Err? {
      return None;
    }
    assert payload[pos..][name.value.1..] == payload[pos + name.value.1..];
    var value := Varint.ReadUvarint(payload[pos + name.value.1..]);
    if value.Err? {
      return None;
    }
    var n := LookupSymbol(file, t, name.value.0 % TWO32);
    var v := LookupSymbol(file, t, value.value.0 % TWO32);
    if n.Err? || v.Err? {
      return None;
    }
    return Some((Entry(n.value, v.value), pos + name.value.1 + value.value.1));
  }

  /** Labels in front of whatever the rest of the references give. */
  function LabelsAhead(ls: seq<Label>, k: nat, r: Option<(seq<Label>, nat)>): Option<(seq<Label>, nat)> {
    match r case None => None case Some((more, n)) => Some((ls + more, k + n))
  }

  lemma RefsStep(buf: Bytes, file: Bytes, t: SymbolTable, count: nat, ls: seq<Label>, k: nat)
    requires count > 0 && k <= |buf|
    ensures match TakeLabelRef(buf[k..], file, t)
      case None => LabelsAhead(ls, k, TakeRefs(buf[k..], file, t, count)) == None
      case Some((l, n)) => (
        && k + n <= |buf|
        && LabelsAhead(ls, k, TakeRefs(buf[k..], file, t, count))
        == LabelsAhead(ls + [l], k + n, TakeRefs(buf[k + n..], file, t, count - 1)))
  {
    hide TakeLabelRef;
    match TakeLabelRef(buf[k..], file, t)
    case None =>
    case Some((l, n)) =>
      assert buf[k..][n..] == buf[k + n..];
      match TakeRefs(buf[k + n..], file, t, count - 1)
      case None =>
      case Some((more, _)) => assert ls + ([l] + more) == ls + [l] + more;
  }

  method ReadRefs(payload: Bytes, file: Bytes, t: SymbolTable, count: nat) returns (r: Option<(seq<Label>, nat)>)
    ensures r == TakeRefs(payload, file, t, count)
  {
    hide TakeLabelRef, TakeRefs;
    var labels: seq<Label> := [];
    var pos: nat := 0;
    StartRefs(payload, file, t, count);
    for i := 0 to count
      invariant pos <= |payload|
      invariant LabelsAhead(labels, pos, TakeRefs(payload[pos..], file, t, count - i)) == TakeRefs(payload, file, t, count)
    {
      RefsStep(payload, file, t, count - i, labels, pos);
      var l := ReadLabelRef(payload, pos, file, t);
      if l.None? {
        return None;
      }
      labels, pos := labels + [l.value.0], l.value.1;
    }
    EndRefs(payload[pos..], file, t);
    assert labels + [] == labels;
    return Some((labels, pos));
  }

  lemma StartRefs(payload: Bytes, file: Bytes, t: SymbolTable, count: nat)
    ensures LabelsAhead([], 0, TakeRefs(payload[0..], file, t, count)) == TakeRefs(payload, file, t, count)
  {
    hide TakeRefs;
    assert payload[0..] == payload;
    match TakeRefs(payload, file, t, count)
    case None =>
    case Some((ls, _)) => assert [] + ls == ls;
  }

  lemma EndRefs(buf: Bytes, file: Bytes, t: SymbolTable)
    ensures TakeRefs(buf, file, t, 0) == Some(([], 0))
  {
  }

  method ReadFirstMeta(payload: Bytes, pos: nat) returns (r: Option<(ChunkMeta, nat)>)
    requires pos <= |payload|
    ensures r == match TakeFirstMeta(payload[pos..]) case None => None case Some((m, n)) => Some((m, pos + n))
  {
    hide Varint.DecodeUvarint, Varint.DecodeVarint, ToI64;
    var t0 := Varint.ReadVarint(payload[pos..]);
    if t0.Err? {
      return None;
    }
    var p := pos + t0.value.1;
    assert payload[pos..][t0.value.1..] == payload[p..];
    var d := Varint.ReadUvarint(payload[p..]);
    if d.Err? {
      return None;
    }
    var q := p + d.value.1;
    assert payload[pos..][t0.value.1 + d.value.1..] == payload[q..];
    var ref := Varint.ReadUvarint(payload[q..]);
    if ref.Err? {
      return None;
    }
    return Some((ChunkMeta(t0.value.0, ToI64(t0.value.0 + ToI64(d.value.0)), ToU64(ref.value.0)), q + ref.value.1));
  }

  method ReadNextMeta(payload: Bytes, pos: nat, t0: i64, signedRef: i64, ghost prev: ChunkMeta) returns (r: Option<(ChunkMeta, nat)>)
    requires pos <= |payload| && t0 == prev.maxTime && signedRef == ToI64(prev.ref)
    ensures r == match TakeNextMeta(prev, payload[pos..]) case None => None case Some((m, n)) => Some((m, pos + n))
  {
    hide Varint.DecodeUvarint, Varint.DecodeVarint, ToI64;
    var d := Varint.ReadUvarint(payload[pos..]);
    if d.Err? {
      return None;
    }
    var p := pos + d.value.1;
    assert payload[pos..][d.value.1..] == payload[p..];
    var mint := ToI64(t0 + ToI64(d.value.0));
    var e := Varint.ReadUvarint(payload[p..]);
    if e.Err? {
      return None;
    }
    var q := p + e.value.1;
    assert payload[pos..][d.value.1 + e.value.1..] == payload[q..];
    var maxt := ToI64(mint + ToI64(e.value.0));
    var delta := Varint.ReadVarint(payload[q..]);
    if delta.Err? {
      return None;
    }
    return Some((ChunkMeta(mint, maxt, ToU64(ToI64(signedRef + delta.value.0))), q + delta.value.1));
  }

  function MetasAhead(ms: seq<ChunkMeta>, r: Option<seq<ChunkMeta>>): Option<seq<ChunkMeta>> {
    match r case None => None case Some(more) => Some(ms + more)
  }

  lemma MetasStep(buf: Bytes, k: nat, count: nat, ms: seq<ChunkMeta>, prev: ChunkMeta)
    requires count > 0 && k <= |buf|
    ensures match TakeNextMeta(prev, buf[k..])
      case None => MetasAhead(ms, TakeMetas(prev, buf[k..], count)) == None
      case Some((m, n)) => (
        && k + n <= |buf|
        && MetasAhead(ms, TakeMetas(prev, buf[k..], count)) == MetasAhead(ms + [m], TakeMetas(m, buf[k + n..], count - 1)))
  {
    hide TakeNextMeta;
    match TakeNextMeta(prev, buf[k..])
    case None =>
    case Some((m, n)) =>
      assert buf[k..][n..] == buf[k + n..];
      match TakeMetas(m, buf[k + n..], count - 1)
      case None =>
      case Some(more) => assert ms + ([m] + more) == ms + [m] + more;
  }

  method ReadChunkList(payload: Bytes, count: nat) returns (r: Option<seq<ChunkMeta>>)
    requires count > 0
    ensures r == TakeChunkList(payload, count)
  {
    hide TakeFirstMeta, TakeNextMeta, TakeMetas, ToI64;
    assert payload[0..] == payload;
    var first := ReadFirstMeta(payload, 0);
    if first.None? {
      return None;
    }
    var m := first.value.0;
    var pos: nat := first.value.1;
    var out := [m];
    var t0, signedRef := m.maxTime, ToI64(m.ref);
    for i := 1 to count
      invariant pos <= |payload| && out != [] && t0 == out[|out| - 1].maxTime && signedRef == ToI64(out[|out| - 1].ref)
      invariant MetasAhead(out, TakeMetas(out[|out| - 1], payload[pos..], count - i)) == TakeChunkList(payload, count)
    {
      MetasStep(payload, pos, count - i, out, out[|out| - 1]);
      var next := ReadNextMeta(payload, pos, t0, signedRef, out[|out| - 1]);
      if next.None? {
        return None;
      }
      out, pos := out + [next.value.0], next.value.1;
      t0, signedRef := next.value.0.maxTime, ToI64(next.value.0.ref);
    }
    EndMetas(out[|out| - 1], payload[pos..]);
    assert out + [] == out;
    return Some(out);
  }

  lemma EndMetas(prev: ChunkMeta, buf: Bytes)
    ensures TakeMetas(prev, buf, 0) == Some([])
  {
  }

  method DecodeEntry(payload: Bytes, file: Bytes, t: SymbolTable) returns (r: Result<SeriesEntry, IndexError>)
    ensures r == DecodeSeriesPayload(payload, file, t)
  {
    hide Varint.DecodeUvarint, TakeRefs, TakeChunkList, Canonicalized;
    var k := Varint.ReadUvarint(payload);
    if k.Err? {
      return Err(IllegalBytes);
    }
    var refs := ReadRefs(payload[k.value.1..], file, t, k.value.0);
    if refs.None? {
      return Err(IllegalBytes);
    }
    var labels := Canonicalize(refs.value.0);
    var rest := payload[k.value.1 + refs.value.1..];
    var n := Varint.ReadUvarint(rest);
    if n.Err? {
      return Err(IllegalBytes);
    }
    if n.value.0 == 0 {
      return Ok(SeriesEntry(labels, []));
    }
    var chunks := ReadChunkList(rest[n.value.1..], n.value.0);
    if chunks.None? {
      return Err(IllegalBytes);
    }
    return Ok(SeriesEntry(labels, chunks.value));
  }

  // ---- Postings --------------------------------------------------------------

  method ReadPostings(file: Bytes, off: nat) returns (r: Result<seq<nat>, IndexError>)
    ensures r == ReadPostingList(file, off)
  {
    hide BeValue, ReadSection;
    var section := ReadSectionPayload(file, off);
    if section.Err? {
      return Err(section.error);
    }
    var payload := section.value;
    if |payload| < 4 {
      return Err(IllegalBytes);
    }
    var count := BeValue(payload[..4]);
    if |payload| < 4 + 4 * count {
      return Err(IllegalBytes);
    }
    var refs: seq<nat> := [];
    for i := 0 to count
      invariant refs == IdsIn(payload, i)
    {
      refs := refs + [BeValue(payload[4 + 4 * i..4 + 4 * i + 4])];
    }
    return Ok(refs);
  }

  /** One entry of the postings table. */
  method ReadTableEntry(payload: Bytes, pos: nat) returns (r: Option<(TableEntry, nat)>)
    requires pos <= |payload|
    ensures r == match TakeTableEntry(payload[pos..]) case None => None case Some((e, n)) => Some((e, pos + n))
    ensures r.Some? ==> r.value.1 <= |payload|
  {
    hide Varint.DecodeUvarint;
    ghost var buf := payload[pos..];
    var keys := Varint.ReadUvarint(payload[pos..]);
    if keys.Err? {
      return None;
    }
    var p := pos + keys.value.1;
    if keys.value.0 != 2 {
      return None;
    }
    assert buf[keys.value.1..] == payload[p..];
    var name := ReadCounted(payload, p);
    if name.None? {
      return None;
    }
    assert buf[name.value.1 - pos..] == payload[name.value.1..];
    var value := ReadCounted(payload, name.value.1);
    if value.None? {
      return None;
    }
    assert buf[value.value.1 - pos..] == payload[value.value.1..];
    var off := Varint.ReadUvarint(payload[value.value.1..]);
    if off.Err? {
      return None;
    }
    return Some((TableEntry(name.value.0, value.value.0, off.value.0), value.value.1 + off.value.1));
  }

  method ReadCounted(payload: Bytes, pos: nat) returns (r: Option<(Str, nat)>)
    requires pos <= |payload|
    ensures r == match TakeStr(payload[pos..]) case None => None case Some((s, n)) => Some((s, pos + n))
  {
    hide Varint.DecodeUvarint;
    var len := Varint.ReadUvarint(payload[pos..]);
    if len.Err? {
      return None;
    }
    var start, n := pos + len.value.1, len.value.0;
    if start + n > |payload| {
      return None;
    }
    assert payload[pos..][len.value.1..len.value.1 + n] == payload[start..start + n];
    return Some((payload[start..start + n], start + n));
  }

  function EntriesAhead(es: seq<TableEntry>, k: nat, r: Option<(seq<TableEntry>, nat)>): Option<(seq<TableEntry>, nat)> {
    match r case None => None case Some((more, n)) => Some((es + more, k + n))
  }

  lemma TableStep(buf: Bytes, count: nat, es: seq<TableEntry>, k: nat)
    requires count > 0 && k <= |buf|
    ensures match TakeTableEntry(buf[k..])
      case None => EntriesAhead(es, k, TakeTable(buf[k..], count)) == None
      case Some((e, n)) => (
        && k + n <= |buf|
        && EntriesAhead(es, k, TakeTable(buf[k..], count)) == EntriesAhead(es + [e], k + n, TakeTable(buf[k + n..], count - 1)))
  {
    hide TakeTableEntry;
    match TakeTableEntry(buf[k..])
    case None =>
    case Some((e, n)) =>
      assert buf[k..][n..] == buf[k + n..];
      match TakeTable(buf[k + n..], count - 1)
      case None =>
      case Some((more, _)) => assert es + ([e] + more) == es + [e] + more;
  }

  method ReadTable(file: Bytes, off: nat) returns (r: Result<seq<TableEntry>, IndexError>)
    ensures r == ParseTable(file, off)
  {
    hide BeValue, ReadSection, TakeTable, TakeTableEntry;
    var section := ReadSectionPayload(file, off);
    if section.Err? {
      return Err(section.error);
    }
    var payload := section.value;
    if |payload| < 4 {
      return Err(IllegalBytes);
    }
    var count := BeValue(payload[..4]);
    ghost var buf := payload[4..];
    var entries: seq<TableEntry> := [];
    var pos := 4;
    StartTable(buf, count);
    for i := 0 to count
      invariant 4 <= pos <= |payload|
      invariant EntriesAhead(entries, pos - 4, TakeTable(buf[pos - 4..], count - i)) == TakeTable(buf, count)
    {
      TableStep(buf, count - i, entries, pos - 4);
      assert buf[pos - 4..] == payload[pos..];
      var e := ReadTableEntry(payload, pos);
      if e.None? {
        return Err(IllegalBytes);
      }
      entries, pos := entries + [e.value.0], e.value.1;
    }
    EndTable(buf[pos - 4..]);
    assert entries + [] == entries;
    if pos != |payload| {
      return Err(IllegalBytes);
    }
    return Ok(entries);
  }

  lemma StartTable(buf: Bytes, count: nat)
    ensures EntriesAhead([], 0, TakeTable(buf[0..], count)) == TakeTable(buf, count)
  {
    hide TakeTable;
    assert buf[0..] == buf;
    match TakeTable(buf, count)
    case None =>
    case Some((es, _)) => assert [] + es == es;
  }

  lemma EndTable(buf: Bytes)
    ensures TakeTable(buf, 0) == Some(([], 0))
  {
  }

  /** The lists of some entries one after the other, if each can be read. */
  function Collected(file: Bytes, es: seq<TableEntry>): Result<seq<nat>, IndexError> {
    if es == [] then Ok([])
    else match Collected(file, es[..|es| - 1])
      case Err(e) => Err(e)
      case Ok(ids) => match ReadPostingList(file, es[|es| - 1].offset) case Err(e) => Err(e) case Ok(more) => Ok(ids + more)
  }

  function Named(es: seq<TableEntry>, name: Str): seq<TableEntry> {
    if es == [] then []
    else Named(es[..|es| - 1], name) + (if es[|es| - 1].name == name then [es[|es| - 1]] else [])
  }

  function Values(es: seq<TableEntry>): seq<Str> {
    if es == [] then [] else Values(es[..|es| - 1]) + [es[|es| - 1].value]
  }

  function Uniquely(r: Result<seq<nat>, IndexError>): Result<seq<nat>, IndexError> {
    match r case Err(e) => Err(e) case Ok(ids) => Ok(SortUnique(Below, ids))
  }

  lemma NamedStep(es: seq<TableEntry>, i: nat, name: Str)
    requires i < |es|
    ensures Named(es[..i + 1], name) == Named(es[..i], name) + (if es[i].name == name then [es[i]] else [])
  {
    assert es[..i + 1][..i] == es[..i];
  }

  lemma CollectedSnoc(file: Bytes, es: seq<TableEntry>, e: TableEntry)
    ensures Collected(file, es + [e]) == match Collected(file, es)
      case Err(x) => Err(x)
      case Ok(ids) => match ReadPostingList(file, e.offset) case Err(x) => Err(x) case Ok(more) => Ok(ids + more)
  {
    hide ReadPostingList;
    assert (es + [e])[..|es|] == es;
  }

  /** The first list that cannot be read decides. */
  lemma {:induction false} CollectedStops(file: Bytes, es: seq<TableEntry>, i: nat)
    requires i <= |es| && Collected(file, es[..i]).Err?
    ensures Collected(file, es) == Collected(file, es[..i])
    decreases |es|
  {
    hide ReadPostingList;
    if i < |es| {
      assert es[..|es| - 1][..i] == es[..i];
      CollectedStops(file, es[..|es| - 1], i);
    } else {
      assert es[..i] == es;
    }
  }

  lemma {:induction false} NamedStops(file: Bytes, es: seq<TableEntry>, i: nat, name: Str)
    requires i <= |es| && Collected(file, Named(es[..i], name)).Err?
    ensures Collected(file, Named(es, name)) == Collected(file, Named(es[..i], name))
    decreases |es|
  {
    hide ReadPostingList;
    if i < |es| {
      assert es[..|es| - 1][..i] == es[..i];
      NamedStops(file, es[..|es| - 1], i, name);
      var n := |es| - 1;
      CollectedSnoc(file, Named(es[..n], name), es[n]);
      assert Named(es[..n], name) + [] == Named(es[..n], name);
    } else {
      assert es[..i] == es;
    }
  }

  // ---- The reader ------------------------------------------------------------

  lemma {:induction false} NamedMembers(es: seq<TableEntry>, name: Str)
    ensures forall e :: e in Named(es, name) <==> e in es && e.name == name
  {
    if es != [] {
      NamedMembers(es[..|es| - 1], name);
      assert es == es[..|es| - 1] + [es[|es| - 1]];
    }
  }

  lemma {:induction false} ValuesMembers(es: seq<TableEntry>, v: Str)
    ensures v in Values(es) <==> exists j :: 0 <= j < |es| && es[j].value == v
  {
    if es != [] {
      ValuesMembers(es[..|es| - 1], v);
      assert forall j :: 0 <= j < |es| - 1 ==> es[..|es| - 1][j] == es[j];
    }
  }

  /** Sorted and without repetitions, the values of a name are in byte order and are those of its
      entries. */
  lemma ValuesInOrder(es: seq<TableEntry>, name: Str)
    ensures var vs := SortUnique(Less, Values(Named(es, name)));
      && InByteOrder(vs)
      && forall v :: v in vs <==> exists j :: 0 <= j < |es| && es[j].name == name && es[j].value == v
  {
    hide SortUnique, Named, Values, Less, Precedes;
    var named := Named(es, name);
    var vs := SortUnique(Less, Values(named));
    LessStrictTotal();
    SortUniqueMeaning(Less, Values(named));
    NamedMembers(es, name);
    forall i, j | 0 <= i < j < |vs|
      ensures Precedes(vs[i], vs[j])
    {
      LessMeaning(vs[i], vs[j]);
    }
    forall v
      ensures v in vs <==> exists j :: 0 <= j < |es| && es[j].name == name && es[j].value == v
    {
      ValuesMembers(named, v);
      if j :| 0 <= j < |named| && named[j].value == v {
        assert named[j] in es;
      }
      if j :| 0 <= j < |es| && es[j].name == name && es[j].value == v {
        assert es[j] in named;
      }
    }
  }

  class IndexReader {
    const index: Index
    /** Offsets by pair; the first entry of a key stays. */
    const byPair: map<Str, nat>

    ghost predicate Valid() {
      forall name, value :: match LookupPair(index.table, name, value)
        case None => Key(name, value) !in byPair
        case Some(off) => Key(name, value) in byPair && byPair[Key(name, value)] == off
    }

    constructor (index: Index)
      ensures Valid() && this.index == index
    {
      this.index := index;
      var m: map<Str, nat> := map[];
      var n := |index.table|;
      StartPairs(index.table);
      for i := 0 to n
        invariant n == |index.table| && Mapped(index.table[..i], m)
      {
        var e := index.table[i];
        MappedStep(index.table, i, m);
        var key := Key(e.name, e.value);
        if key !in m {
          m := m[key := e.offset];
        }
      }
      this.byPair := m;
      new;
      assert index.table[..n] == index.table;
      MappedMeaning(index.table, m);
    }

    static method Open(file: Bytes) returns (r: Result<IndexReader, IndexError>)
      ensures match ParseIndex(file)
        case Err(e) => r == Err(e)
        case Ok(x) => r.Ok? && r.value.Valid() && r.value.index == x
    {
      hide ParseToc, ParseSymbols, ParseTable, LookupPair;
      if |file| < HEADER_SIZE + TOC_SIZE {
        return Err(IllegalBytes);
      }
      if file[..4] != INDEX_MAGIC {
        return Err(IllegalBytes);
      }
      var version := file[4];
      if version != 1 && version != 2 && version != 3 {
        return Err(NotSupported);
      }
      var toc := ReadToc(file);
      if toc.Err? {
        return Err(toc.error);
      }
      var symbols := ParseSymbolTable(file, toc.value.symbols, version);
      if symbols.Err? {
        return Err(symbols.error);
      }
      var table := ReadTable(file, toc.value.postingsTable);
      if table.Err? {
        return Err(table.error);
      }
      var reader := new IndexReader(Index(file, version, toc.value, symbols.value, table.value));
      return Ok(reader);
    }

    method Lookup(name: Str, value: Str) returns (r: Option<nat>)
      requires Valid()
      ensures r == LookupPair(index.table, name, value)
    {
      hide LookupPair;
      var key := Key(name, value);
      assert match LookupPair(index.table, name, value)
        case None => Key(name, value) !in byPair
        case Some(off) => Key(name, value) in byPair && byPair[Key(name, value)] == off;
      if key !in byPair {
        return None;
      }
      return Some(byPair[key]);
    }

    method Postings(name: Str, value: Str) returns (r: Result<seq<nat>, IndexError>)
      requires Valid()
      ensures r == PostingsOf(index, name, value)
    {
      hide LookupPair, ReadPostingList;
      var off := Lookup(name, value);
      if off.None? {
        return Ok([]);
      }
      r := ReadPostings(index.file, off.value);
    }

    /** Union of every list of a name. */
    method PostingsForName(name: Str) returns (r: Result<seq<nat>, IndexError>)
      ensures r == Uniquely(Collected(index.file, Named(index.table, name)))
    {
      hide ReadPostingList, Collected, Named, SortUnique;
      var out: seq<nat> := [];
      StartCollected(index.file, index.table, name);
      for i := 0 to |index.table|
        invariant Collected(index.file, Named(index.table[..i], name)) == Ok(out)
      {
        var e := index.table[i];
        NamedStep(index.table, i, name);
        assert Named(index.table[..i], name) + [] == Named(index.table[..i], name);
        if e.name != name {
          continue;
        }
        CollectedSnoc(index.file, Named(index.table[..i], name), e);
        var ids := ReadPostings(index.file, e.offset);
        if ids.Err? {
          NamedStops(index.file, index.table, i + 1, name);
          return Err(ids.error);
        }
        out := out + ids.value;
      }
      assert index.table[..|index.table|] == index.table;
      return Ok(SortUnique(Below, out));
    }

    /** Union of every list. */
    method AllPostings() returns (r: Result<seq<nat>, IndexError>)
      ensures r == Uniquely(Collected(index.file, index.table))
    {
      hide ReadPostingList, Collected, SortUnique;
      var out: seq<nat> := [];
      StartCollected(index.file, index.table, []);
      for i := 0 to |index.table|
        invariant Collected(index.file, index.table[..i]) == Ok(out)
      {
        var e := index.table[i];
        CollectedSnoc(index.file, index.table[..i], e);
        assert index.table[..i + 1] == index.table[..i] + [e];
        var ids := ReadPostings(index.file, e.offset);
        if ids.Err? {
          CollectedStops(index.file, index.table, i + 1);
          return Err(ids.error);
        }
        out := out + ids.value;
      }
      assert index.table[..|index.table|] == index.table;
      return Ok(SortUnique(Below, out));
    }

    /** Every value of a name once, in byte order. */
    method LabelValues(name: Str) returns (out: seq<Str>)
      ensures out == SortUnique(Less, Values(Named(index.table, name)))
      ensures InByteOrder(out)
      ensures forall v :: v in out <==> exists j :: 0 <= j < |index.table| && index.table[j].name == name && index.table[j].value == v
    {
      hide Named, Values, SortUnique;
      out := [];
      StartValues(index.table, name);
      for i := 0 to |index.table|
        invariant out == Values(Named(index.table[..i], name))
      {
        var e := index.table[i];
        NamedStep(index.table, i, name);
        ValuesSnoc(Named(index.table[..i], name), e);
        assert Named(index.table[..i], name) + [] == Named(index.table[..i], name);
        if e.name == name {
          out := out + [e.value];
        }
      }
      assert index.table[..|index.table|] == index.table;
      out := SortUnique(Less, out);
      ValuesInOrder(index.table, name);
    }

    method Series(id: nat) returns (r: Result<SeriesEntry, IndexError>)
      ensures r == SeriesOf(index, id)
    {
      hide ReadVarSection, DecodeSeriesPayload;
      var offset := if index.version == 1 then id else id * 16;
      var payload := ReadVarSectionPayload(index.file, offset);
      if payload.Err? {
        return Err(payload.error);
      }
      r := DecodeEntry(payload.value, index.file, index.symbols);
    }
  }

  // ---- The map of pairs ------------------------------------------------------

  /** A map holds, under each key, the offset of the first entry that has it. */
  ghost predicate Mapped(es: seq<TableEntry>, m: map<Str, nat>) {
    && (forall i :: 0 <= i < |es| ==> Key(es[i].name, es[i].value) in m)
    && (forall k :: k in m ==> FirstAt(es, k).Some? && m[k] == FirstAt(es, k).value)
  }

  function FirstAt(es: seq<TableEntry>, k: Str): Option<nat> {
    if es == [] then None
    else if Key(es[0].name, es[0].value) == k then Some(es[0].offset)
    else FirstAt(es[1..], k)
  }

  lemma StartPairs(es: seq<TableEntry>)
    ensures Mapped(es[..0], map[])
  {
  }

  lemma {:induction false} FirstAtSnoc(es: seq<TableEntry>, e: TableEntry, k: Str)
    ensures FirstAt(es + [e], k) ==
      if FirstAt(es, k).Some? then FirstAt(es, k) else if Key(e.name, e.value) == k then Some(e.offset) else None
    decreases |es|
  {
    hide Key;
    if es == [] {
      assert ([] + [e])[1..] == [];
    } else {
      assert (es + [e])[1..] == es[1..] + [e];
      FirstAtSnoc(es[1..], e, k);
    }
  }

  lemma MappedStep(es: seq<TableEntry>, i: nat, m: map<Str, nat>)
    requires i < |es| && Mapped(es[..i], m)
    ensures var key := Key(es[i].name, es[i].value);
      Mapped(es[..i + 1], if key in m then m else m[key := es[i].offset])
  {
    hide Key, FirstAt;
    var e := es[i];
    assert es[..i + 1] == es[..i] + [e];
    forall k
      ensures FirstAt(es[..i] + [e], k) ==
        if FirstAt(es[..i], k).Some? then FirstAt(es[..i], k) else if Key(e.name, e.value) == k then Some(e.offset) else None
      ensures FirstAt(es[..i], k).Some? ==> k in m
    {
      FirstAtSnoc(es[..i], e, k);
      FirstAtThere(es[..i], k);
    }
  }

  lemma {:induction false} FirstAtThere(es: seq<TableEntry>, k: Str)
    ensures FirstAt(es, k).Some? <==> exists i :: 0 <= i < |es| && Key(es[i].name, es[i].value) == k
    decreases |es|
  {
    hide Key;
    if es != [] {
      FirstAtThere(es[1..], k);
      if exists i :: 0 <= i < |es| && Key(es[i].name, es[i].value) == k {
        var i :| 0 <= i < |es| && Key(es[i].name, es[i].value) == k;
        assert i > 0 ==> es[1..][i - 1] == es[i];
      }
      if exists i :: 0 <= i < |es[1..]| && Key(es[1..][i].name, es[1..][i].value) == k {
        var i :| 0 <= i < |es[1..]| && Key(es[1..][i].name, es[1..][i].value) == k;
        assert es[i + 1] == es[1..][i];
      }
    }
  }

  lemma {:induction false} FirstAtIsLookup(es: seq<TableEntry>, name: Str, value: Str)
    ensures LookupPair(es, name, value) == FirstAt(es, Key(name, value))
    decreases |es|
  {
    hide Key;
    if es != [] {
      FirstAtIsLookup(es[1..], name, value);
    }
  }

  lemma MappedMeaning(es: seq<TableEntry>, m: map<Str, nat>)
    requires Mapped(es, m)
    ensures forall name, value :: match LookupPair(es, name, value)
      case None => Key(name, value) !in m
      case Some(off) => Key(name, value) in m && m[Key(name, value)] == off
  {
    hide Key, FirstAt, LookupPair;
    forall name, value
      ensures match LookupPair(es, name, value)
        case None => Key(name, value) !in m
        case Some(off) => Key(name, value) in m && m[Key(name, value)] == off
    {
      FirstAtIsLookup(es, name, value);
      FirstAtThere(es, Key(name, value));
    }
  }

  lemma StartCollected(file: Bytes, es: seq<TableEntry>, name: Str)
    ensures Collected(file, Named(es[..0], name)) == Ok([]) && Collected(file, es[..0]) == Ok([])
  {
  }

  lemma StartValues(es: seq<TableEntry>, name: Str)
    ensures Values(Named(es[..0], name)) == []
  {
  }

  lemma ValuesSnoc(es: seq<TableEntry>, e: TableEntry)
    ensures Values(es + [e]) == Values(es) + [e.value]
  {
    assert (es + [e])[..|es|] == es;
  }
}
