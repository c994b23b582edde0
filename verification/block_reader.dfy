/** An opened block: queries and loading, by the index and chunk readers. */
module BlockReaders {
  import opened Words
  import opened Wrappers
  import opened SortedSets
  import opened XorCode
  import opened LabelSets
  import opened Queries
  import opened ChunkFiles
  import opened IndexFormat
  import opened IndexFiles
  import opened IndexReaders
  import opened PostingAlgebra
  import opened BlockModel
  import opened Compaction

  class OpenBlock {
    const meta: BlockMeta
    const index: IndexReader
    const chunks: ChunkReader

    ghost predicate Valid()
      reads chunks
    {
      index.Valid() && chunks.Valid()
    }

    /** No failed read has left a segment loaded whose header is not sound. */
    ghost predicate Checked()
      reads chunks
    {
      Valid() && AddsSound(chunks.segments, {}, chunks.Loaded())
    }

    constructor (meta: BlockMeta, index: IndexReader, chunks: ChunkReader)
      requires index.Valid() && chunks.Valid() && forall i :: 0 <= i < |chunks.cache| ==> chunks.cache[i] == []
      ensures Checked() && this.meta == meta && this.index == index && this.chunks == chunks
    {
      this.meta, this.index, this.chunks := meta, index, chunks;
    }

    static method Open(b: Block) returns (r: Result<OpenBlock, BlockError>)
      ensures match ParseIndex(b.index)
        case Err(_) => r == Err(BadIndex)
        case Ok(x) => (
          && r.Ok? && r.value.Checked() && r.value.chunks.Loaded() == {} && fresh(r.value) && fresh(r.value.chunks)
          && r.value.index.index == x && r.value.chunks.segments == b.chunks && r.value.meta == b.meta)
    {
      hide ParseIndex;
      var index := IndexReader.Open(b.index);
      if index.Err? {
        return Err(BadIndex);
      }
      var chunks := new ChunkReader(b.chunks);
      var o := new OpenBlock(b.meta, index.value, chunks);
      return Ok(o);
    }

    /** Reads the chunk of an index entry. */
    method ReadRef(ref: u64) returns (r: Result<Chunk, ChunkError>)
      requires Valid()
      modifies chunks
      ensures Valid()
      ensures r == ReadLoaded(chunks.segments, old(chunks.Loaded()), Unpacked(ref).seqNo, Unpacked(ref).offset)
      ensures r.Ok? ==> AddsSound(chunks.segments, old(chunks.Loaded()), chunks.Loaded())
    {
      hide ChunkAt;
      var u := Unpacked(ref);
      r := chunks.Read(u.seqNo, u.offset);
    }

    /** The chunks of a series entry that overlap a time range. */
    method ReadOverlapping(metas: seq<ChunkMeta>, mint: i64, maxt: i64)
      returns (r: Result<(seq<seq<byte>>, seq<ChunkMeta>), BlockError>)
      requires Valid()
      modifies chunks
      ensures Valid()
      ensures r == ReadMetas(chunks.segments, old(chunks.Loaded()), metas, mint, maxt)
      ensures r.Ok? ==> AddsSound(chunks.segments, old(chunks.Loaded()), chunks.Loaded())
    {
      hide ReadMetas, ReadLoaded, Unpacked, HeaderSound;
      ghost var loaded := chunks.Loaded();
      var bytes, found := [], [];
      StartMetas(chunks.segments, loaded, metas, mint, maxt);
      for i := 0 to |metas|
        invariant Valid() && AddsSound(chunks.segments, loaded, chunks.Loaded())
        invariant ReadMetas(chunks.segments, loaded, metas[..i], mint, maxt) == Ok((bytes, found))
      {
        var m := metas[i];
        MetasOneMore(chunks.segments, loaded, metas, i, mint, maxt);
        if m.minTime > maxt || m.maxTime < mint {
          continue;
        }
        LoadedAlike(chunks.segments, loaded, chunks.Loaded(), Unpacked(m.ref).seqNo, Unpacked(m.ref).offset);
        var payload := ReadRef(m.ref);
        if payload.Err? {
          MetasStop(chunks.segments, loaded, metas, i + 1, mint, maxt);
          return Err(BadChunk);
        }
        if payload.value.encoding != XOR_ENCODING {
          MetasStop(chunks.segments, loaded, metas, i + 1, mint, maxt);
          return Err(BlockError.NotSupported);
        }
        bytes, found := bytes + [payload.value.data], found + [m];
      }
      assert metas[..|metas|] == metas;
      return Ok((bytes, found));
    }

    /** Every series the matchers accept, with its chunks that overlap the range, whatever was
        queried before: only segments loaded by earlier reads go unchecked. */
    method Select(ms: seq<Matcher>, mint: i64, maxt: i64) returns (r: Result<seq<QueryResult>, BlockError>)
      requires Valid()
      modifies chunks
      ensures Valid()
      ensures r == if ms == [] then Err(BlockError.InvalidArgument)
        else match Narrowed(index.index, ms)
          case Err(_) => Err(BadIndex)
          case Ok(ids) => SelectIds(index.index, chunks.segments, old(chunks.Loaded()), ids, mint, maxt)
      ensures r.Ok? ==> AddsSound(chunks.segments, old(chunks.Loaded()), chunks.Loaded())
    {
      hide Narrowed, SelectIds, ReadMetas, SeriesOf, HeaderSound;
      if ms == [] {
        return Err(BlockError.InvalidArgument);
      }
      var narrowed := Narrow(index, ms);
      if narrowed.Err? {
        return Err(BadIndex);
      }
      var ids := narrowed.value;
      ghost var loaded := chunks.Loaded();
      var out: seq<QueryResult> := [];
      StartIds(index.index, chunks.segments, loaded, ids, mint, maxt);
      for i := 0 to |ids|
        invariant Valid() && AddsSound(chunks.segments, loaded, chunks.Loaded())
        invariant SelectIds(index.index, chunks.segments, loaded, ids[..i], mint, maxt) == Ok(out)
      {
        IdsOneMore(index.index, chunks.segments, loaded, ids, i, mint, maxt);
        var entry := index.Series(ids[i]);
        if entry.Err? {
          IdsStop(index.index, chunks.segments, loaded, ids, i + 1, mint, maxt);
          return Err(BadIndex);
        }
        MetasAlike(chunks.segments, loaded, chunks.Loaded(), entry.value.chunks, mint, maxt);
        var found := ReadOverlapping(entry.value.chunks, mint, maxt);
        if found.Err? {
          IdsStop(index.index, chunks.segments, loaded, ids, i + 1, mint, maxt);
          return Err(found.error);
        }
        if found.value.0 == [] {
          continue;
        }
        out := out + [QueryResult(entry.value.labels, found.value.0, found.value.1)];
      }
      assert ids[..|ids|] == ids;
      return Ok(out);
    }

    /** All chunks of a series entry. */
    method ReadEvery(metas: seq<ChunkMeta>) returns (r: Result<seq<ChunkInput>, BlockError>)
      requires Checked()
      modifies chunks
      ensures r == LoadChunks(chunks.segments, metas)
      ensures r.Ok? ==> Checked()
    {
      hide LoadChunks, ReadChunk, Unpacked, HeaderSound;
      var out: seq<ChunkInput> := [];
      StartLoad(chunks.segments, metas);
      for i := 0 to |metas|
        invariant Checked() && LoadChunks(chunks.segments, metas[..i]) == Ok(out)
      {
        var m := metas[i];
        LoadOneMore(chunks.segments, metas, i);
        LoadedAlike(chunks.segments, {}, chunks.Loaded(), Unpacked(m.ref).seqNo, Unpacked(m.ref).offset);
        var payload := ReadRef(m.ref);
        if payload.Err? {
          LoadStop(chunks.segments, metas, i + 1);
          return Err(BadChunk);
        }
        if payload.value.encoding != XOR_ENCODING {
          LoadStop(chunks.segments, metas, i + 1);
          return Err(BlockError.NotSupported);
        }
        out := out + [ChunkInput(m.minTime, m.maxTime, payload.value.data)];
      }
      assert metas[..|metas|] == metas;
      return Ok(out);
    }
  }

  // ---- Loops, one step further -----------------------------------------------

  lemma StartMetas(files: seq<seq<byte>>, loaded: set<nat>, metas: seq<ChunkMeta>, mint: i64, maxt: i64)
    ensures ReadMetas(files, loaded, metas[..0], mint, maxt) == Ok(([], []))
  {
  }

  lemma MetasOneMore(files: seq<seq<byte>>, loaded: set<nat>, metas: seq<ChunkMeta>, i: nat, mint: i64, maxt: i64)
    requires i < |metas|
    ensures ReadMetas(files, loaded, metas[..i + 1], mint, maxt) == match ReadMetas(files, loaded, metas[..i], mint, maxt)
      case Err(e) => Err(e)
      case Ok((bytes, ms)) =>
        var m := metas[i];
        if !Overlaps(m.minTime, m.maxTime, mint, maxt) then Ok((bytes, ms))
        else match ReadLoaded(files, loaded, Unpacked(m.ref).seqNo, Unpacked(m.ref).offset)
          case Err(_) => Err(BadChunk)
          case Ok(c) => if c.encoding != XOR_ENCODING then Err(BlockError.NotSupported) else Ok((bytes + [c.data], ms + [m]))
  {
    hide ReadLoaded, Unpacked;
    assert metas[..i + 1][..i] == metas[..i];
  }

  lemma {:induction false} MetasStop(files: seq<seq<byte>>, loaded: set<nat>, metas: seq<ChunkMeta>, i: nat, mint: i64, maxt: i64)
    requires i <= |metas| && ReadMetas(files, loaded, metas[..i], mint, maxt).Err?
    ensures ReadMetas(files, loaded, metas, mint, maxt) == ReadMetas(files, loaded, metas[..i], mint, maxt)
    decreases |metas|
  {
    hide ReadLoaded, Unpacked;
    if i < |metas| {
      assert metas[..|metas| - 1][..i] == metas[..i];
      MetasStop(files, loaded, metas[..|metas| - 1], i, mint, maxt);
    } else {
      assert metas[..i] == metas;
    }
  }

  lemma StartIds(x: Index, files: seq<seq<byte>>, loaded: set<nat>, ids: seq<nat>, mint: i64, maxt: i64)
    ensures SelectIds(x, files, loaded, ids[..0], mint, maxt) == Ok([])
  {
  }

  lemma IdsOneMore(x: Index, files: seq<seq<byte>>, loaded: set<nat>, ids: seq<nat>, i: nat, mint: i64, maxt: i64)
    requires i < |ids|
    ensures SelectIds(x, files, loaded, ids[..i + 1], mint, maxt) == match SelectIds(x, files, loaded, ids[..i], mint, maxt)
      case Err(e) => Err(e)
      case Ok(rs) => match SelectId(x, files, loaded, ids[i], mint, maxt) case Err(e) => Err(e) case Ok(more) => Ok(rs + more)
    ensures SelectIds(x, files, loaded, ids[..i], mint, maxt).Ok? ==>
      SelectIds(x, files, loaded, ids[..i], mint, maxt).value + [] == SelectIds(x, files, loaded, ids[..i], mint, maxt).value
  {
    hide SelectId;
    assert ids[..i + 1][..i] == ids[..i];
  }

  lemma {:induction false} IdsStop(x: Index, files: seq<seq<byte>>, loaded: set<nat>, ids: seq<nat>, i: nat, mint: i64, maxt: i64)
    requires i <= |ids| && SelectIds(x, files, loaded, ids[..i], mint, maxt).Err?
    ensures SelectIds(x, files, loaded, ids, mint, maxt) == SelectIds(x, files, loaded, ids[..i], mint, maxt)
    decreases |ids|
  {
    hide SelectId;
    if i < |ids| {
      assert ids[..|ids| - 1][..i] == ids[..i];
      IdsStop(x, files, loaded, ids[..|ids| - 1], i, mint, maxt);
    } else {
      assert ids[..i] == ids;
    }
  }

  lemma StartLoad(files: seq<seq<byte>>, metas: seq<ChunkMeta>)
    ensures LoadChunks(files, metas[..0]) == Ok([])
  {
  }

  lemma LoadOneMore(files: seq<seq<byte>>, metas: seq<ChunkMeta>, i: nat)
    requires i < |metas|
    ensures LoadChunks(files, metas[..i + 1]) == match LoadChunks(files, metas[..i])
      case Err(e) => Err(e)
      case Ok(cs) =>
        match ReadChunk(files, Unpacked(metas[i].ref).seqNo, Unpacked(metas[i].ref).offset)
        case Err(_) => Err(BadChunk)
        case Ok(c) =>
          if c.encoding != XOR_ENCODING then Err(BlockError.NotSupported)
          else Ok(cs + [ChunkInput(metas[i].minTime, metas[i].maxTime, c.data)])
  {
    hide ReadChunk, Unpacked;
    assert metas[..i + 1][..i] == metas[..i];
  }

  lemma {:induction false} LoadStop(files: seq<seq<byte>>, metas: seq<ChunkMeta>, i: nat)
    requires i <= |metas| && LoadChunks(files, metas[..i]).Err?
    ensures LoadChunks(files, metas) == LoadChunks(files, metas[..i])
    decreases |metas|
  {
    hide ReadChunk, Unpacked;
    if i < |metas| {
      assert metas[..|metas| - 1][..i] == metas[..i];
      LoadStop(files, metas[..|metas| - 1], i);
    } else {
      assert metas[..i] == metas;
    }
  }

  /** Opening a block and querying it is what the files answer. */
  method QueryBlock(b: Block, ms: seq<Matcher>, mint: i64, maxt: i64) returns (r: Result<seq<QueryResult>, BlockError>)
    ensures r == if ms == [] && ParseIndex(b.index).Err? then Err(BadIndex) else Selected(b, ms, mint, maxt)
  {
    hide ParseIndex, Narrowed, SelectIds;
    var o := OpenBlock.Open(b);
    if o.Err? {
      return Err(BadIndex);
    }
    r := o.value.Select(ms, mint, maxt);
  }
}
