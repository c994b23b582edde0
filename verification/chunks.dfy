/** Chunk segment files of a persistent block. */
module ChunkFiles {
  import opened Words
  import opened BigEndian
  import opened Wrappers
  import opened Crc32c
  import opened Varint

  type Bytes = seq<byte>

  const SEGMENT_HEADER: Bytes := [0x85, 0xBD, 0x40, 0xDD, 1, 0, 0, 0]
  const SEGMENT_HEADER_SIZE := 8
  const CHUNK_CRC_SIZE := 4
  const DEFAULT_CHUNKS_SEGMENT_SIZE := 512 * 1024 * 1024

  const XOR_ENCODING: byte := 1

  datatype Chunk = Chunk(encoding: byte, data: Bytes)

  datatype ChunkError = NotPermitted | NoSuchFile | IllegalBytes

  // ---- References ------------------------------------------------------------

  /** Segment position and byte offset of a chunk, packed in 64 bits. */
  datatype Ref = Ref(seqNo: u32, offset: u32)

  function Packed(r: Ref): u64 {
    r.seqNo * TWO32 + r.offset
  }

  function Unpacked(v: u64): Ref {
    Ref(v / TWO32, v % TWO32)
  }

  /** A reference in its 32-bit fields. */
  function RefOf(s: nat, offset: nat): Ref {
    Ref(s % TWO32, offset % TWO32)
  }

  lemma UnpackedPacked(r: Ref)
    ensures Unpacked(Packed(r)) == r
  {
    DivUnique(Packed(r), TWO32, r.seqNo, r.offset);
  }

  // ---- What is written -------------------------------------------------------

  /** Length, encoding, data, and the sum over encoding and data. */
  function Framed(c: Chunk): (f: Bytes)
    ensures |f| == |Uvarint(|c.data|)| + 1 + |c.data| + CHUNK_CRC_SIZE
  {
    Uvarint(|c.data|) + [c.encoding] + c.data + ToBe(Compute([c.encoding] + c.data), 4)
  }

  function WorstCase(n: nat): nat {
    MAX_VARINT_LEN64 + 1 + n + CHUNK_CRC_SIZE
  }

  predicate RollsOver(offset: nat, n: nat, size: nat) {
    offset > SEGMENT_HEADER_SIZE && offset + WorstCase(n) > size
  }

  /** Writing one chunk: the segments afterwards and its reference. The offset is cut to 32 bits. */
  function Wrote(segs: seq<Bytes>, c: Chunk, size: nat): (seq<Bytes>, nat, nat)
    requires segs != []
  {
    var n := |segs| - 1;
    if RollsOver(|segs[n]|, |c.data|, size) then (segs + [SEGMENT_HEADER + Framed(c)], n + 1, SEGMENT_HEADER_SIZE)
    else (segs[n := segs[n] + Framed(c)], n, |segs[n]| % TWO32)
  }

  /** A new directory and the chunks written to it, with the reference each one got. */
  function WroteAll(cs: seq<Chunk>, size: nat): (r: (seq<Bytes>, seq<(nat, nat)>))
    ensures r.0 != [] && |r.1| == |cs|
  {
    if cs == [] then ([SEGMENT_HEADER], [])
    else
      var (segs, refs) := WroteAll(cs[..|cs| - 1], size);
      var (segs', s, o) := Wrote(segs, cs[|cs| - 1], size);
      (segs', refs + [(s, o)])
  }

  // ---- What is read ----------------------------------------------------------

  predicate HeaderSound(seg: Bytes) {
    |seg| >= SEGMENT_HEADER_SIZE && seg[..4] == SEGMENT_HEADER[..4] && seg[4] == SEGMENT_HEADER[4]
  }

  /** The chunk at an offset of a segment. */
  function ChunkAt(seg: Bytes, offset: nat): Result<Chunk, ChunkError> {
    if offset >= |seg| then Err(IllegalBytes)
    else match DecodeUvarint(seg[offset..])
      case Err(_) => Err(IllegalBytes)
      case Ok((length, n)) =>
        var enc := offset + n;
        var data := enc + 1;
        var crc := data + length;
        if crc + CHUNK_CRC_SIZE > |seg| then Err(IllegalBytes)
        else if Compute([seg[enc]] + seg[data..crc]) != BeValue(seg[crc..crc + 4]) then Err(IllegalBytes)
        else Ok(Chunk(seg[enc], seg[data..crc]))
  }

  /** A read of a segment not loaded before. */
  function ReadChunk(segs: seq<Bytes>, s: nat, offset: nat): Result<Chunk, ChunkError> {
    if s >= |segs| then Err(NoSuchFile)
    else if !HeaderSound(segs[s]) then Err(IllegalBytes)
    else ChunkAt(segs[s], offset)
  }

  /** A read when some segments are loaded already: of those the header is not looked at. */
  function ReadLoaded(segs: seq<Bytes>, loaded: set<nat>, s: nat, offset: nat): Result<Chunk, ChunkError> {
    if s < |segs| && s in loaded then ChunkAt(segs[s], offset) else ReadChunk(segs, s, offset)
  }

  /** The segments whose header a query may have passed over. */
  ghost predicate AddsSound(segs: seq<Bytes>, before: set<nat>, after: set<nat>) {
    before <= after && forall s :: s in after && s !in before && s < |segs| ==> HeaderSound(segs[s])
  }

  /** Segments that were loaded with a sound header make no difference. */
  lemma LoadedAlike(segs: seq<Bytes>, before: set<nat>, after: set<nat>, s: nat, offset: nat)
    requires AddsSound(segs, before, after)
    ensures ReadLoaded(segs, after, s, offset) == ReadLoaded(segs, before, s, offset)
  {
    hide ChunkAt, HeaderSound;
  }

  // ---- Reading back ----------------------------------------------------------

  lemma CrcBack(c: Chunk)
    ensures BeValue(ToBe(Compute([c.encoding] + c.data), 4)) == Compute([c.encoding] + c.data)
  {
    hide ToBe, BeValue, Compute;
    Pow2Values();
    BeRoundTrip(Compute([c.encoding] + c.data), 4);
  }

  lemma FramedSlices(a: Bytes, b: byte, c: Bytes, d: Bytes, post: Bytes)
    requires |d| == 4
    ensures var s := a + [b] + c + d + post;
      && s == a + ([b] + c + d + post)
      && s[|a|] == b && s[|a| + 1..|a| + 1 + |c|] == c && s[|a| + 1 + |c|..|a| + 1 + |c| + 4] == d
  {
  }

  /** A framed chunk is read back wherever it stands. */
  lemma FramedBack(c: Chunk, post: Bytes)
    requires |c.data| < TWO64
    ensures ChunkAt(Framed(c) + post, 0) == Ok(c)
  {
    hide ToBe, BeValue, Compute, Uvarint, DecodeUvarint;
    var a, d := Uvarint(|c.data|), ToBe(Compute([c.encoding] + c.data), 4);
    CrcBack(c);
    FramedSlices(a, c.encoding, c.data, d, post);
    UvarintRoundTrip(|c.data|, [c.encoding] + c.data + d + post);
    assert (Framed(c) + post)[0..] == Framed(c) + post;
  }

  lemma Shifted(seg: Bytes, offset: nat)
    requires offset <= |seg|
    ensures ChunkAt(seg, offset) == ChunkAt(seg[offset..], 0)
  {
    hide Compute, BeValue, DecodeUvarint;
    var rest := seg[offset..];
    assert rest[0..] == rest;
    if rest != [] && DecodeUvarint(rest).Ok? {
      var (length, n) := DecodeUvarint(rest).value;
      var data, crc := n + 1, n + 1 + length;
      if crc + CHUNK_CRC_SIZE <= |rest| {
        assert rest[data..crc] == seg[offset + data..offset + crc];
        assert rest[crc..crc + 4] == seg[offset + crc..offset + crc + 4];
      }
    }
  }

  /** Where a chunk's bytes are. */
  predicate Stored(segs: seq<Bytes>, s: nat, offset: nat, c: Chunk) {
    && s < |segs| && offset + |Framed(c)| <= |segs[s]|
    && segs[s][offset..offset + |Framed(c)|] == Framed(c)
  }

  ghost predicate AllSound(segs: seq<Bytes>) {
    forall i :: 0 <= i < |segs| ==> SEGMENT_HEADER <= segs[i]
  }

  lemma StoredIsRead(segs: seq<Bytes>, s: nat, offset: nat, c: Chunk)
    requires AllSound(segs) && Stored(segs, s, offset, c) && |c.data| < TWO64
    ensures ReadChunk(segs, s, offset) == Ok(c)
  {
    hide Framed, ChunkAt;
    var seg := segs[s];
    var post := seg[offset + |Framed(c)|..];
    assert seg[offset..] == Framed(c) + post;
    Shifted(seg, offset);
    FramedBack(c, post);
    assert seg[..8] == SEGMENT_HEADER;
    assert seg[..4] == seg[..8][..4];
  }

  lemma WroteKeeps(segs: seq<Bytes>, w: Chunk, size: nat)
    requires segs != [] && AllSound(segs)
    ensures var (segs', s, o) := Wrote(segs, w, size);
      && segs' != [] && AllSound(segs')
      && (RollsOver(|segs[|segs| - 1]|, |w.data|, size) || |segs[|segs| - 1]| < TWO32 ==> Stored(segs', s, o, w))
  {
    hide Framed;
  }

  lemma WroteKeepsStored(segs: seq<Bytes>, w: Chunk, size: nat, s: nat, o: nat, c: Chunk)
    requires segs != [] && Stored(segs, s, o, c)
    ensures Stored(Wrote(segs, w, size).0, s, o, c)
  {
    hide Framed;
    var segs' := Wrote(segs, w, size).0;
    assert segs[s] <= segs'[s];
  }

  /** A segment that takes another chunk is below the segment size. */
  lemma OffsetFits(segs: seq<Bytes>, w: Chunk, size: nat)
    requires segs != [] && !RollsOver(|segs[|segs| - 1]|, |w.data|, size) && size <= TWO32
    ensures |segs[|segs| - 1]| < TWO32
  {
  }

  /** Every chunk is read back under the reference it was given, whatever was written after it
      and however often the writer moved to a new segment. */
  lemma {:induction false} ChunksReadBack(cs: seq<Chunk>, size: nat, i: nat)
    requires i < |cs| && size <= TWO32 && forall k :: 0 <= k < |cs| ==> |cs[k].data| < TWO64
    ensures var (segs, refs) := WroteAll(cs, size);
      ReadChunk(segs, refs[i].0, refs[i].1) == Ok(cs[i])
  {
    hide WroteAll, Stored, ReadChunk, AllSound;
    ChunksStored(cs, size, i);
    var (segs, refs) := WroteAll(cs, size);
    StoredIsRead(segs, refs[i].0, refs[i].1, cs[i]);
  }

  lemma {:induction false} SegmentsSound(cs: seq<Chunk>, size: nat)
    ensures AllSound(WroteAll(cs, size).0)
    ensures forall i :: 0 <= i < |cs| ==> WroteAll(cs, size).1[i].0 < |WroteAll(cs, size).0| && WroteAll(cs, size).1[i].1 < TWO32
  {
    hide Framed;
    if cs != [] {
      SegmentsSound(cs[..|cs| - 1], size);
      WroteKeeps(WroteAll(cs[..|cs| - 1], size).0, cs[|cs| - 1], size);
    }
  }

  lemma {:induction false} ChunksStored(cs: seq<Chunk>, size: nat, i: nat)
    requires i < |cs| && size <= TWO32
    ensures var (segs, refs) := WroteAll(cs, size);
      AllSound(segs) && Stored(segs, refs[i].0, refs[i].1, cs[i])
    decreases |cs|
  {
    hide Wrote, Stored, AllSound, RollsOver;
    var init, c := cs[..|cs| - 1], cs[|cs| - 1];
    var (segs, refs) := WroteAll(init, size);
    SegmentsSound(init, size);
    WroteKeeps(segs, c, size);
    if i < |init| {
      ChunksStored(init, size, i);
      WroteKeepsStored(segs, c, size, refs[i].0, refs[i].1, cs[i]);
    } else if !RollsOver(|segs[|segs| - 1]|, |c.data|, size) {
      OffsetFits(segs, c, size);
    }
  }

  /** The magic number, the version and three zeros. */
  predicate Headed(seg: Bytes) {
    |seg| >= 8 && seg[..8] == [0x85, 0xBD, 0x40, 0xDD, 1, 0, 0, 0]
  }

  /** A file is not too long, or has a header and at most one chunk. */
  ghost predicate FitsOrOne(seg: Bytes, size: nat) {
    |seg| <= size || |seg| == 8 || exists c: Chunk :: |c.data| < TWO64 && seg == SEGMENT_HEADER + Framed(c)
  }

  /** Every chunk file starts with its header and keeps to the size it may have. */
  lemma {:induction false} FilesFit(cs: seq<Chunk>, size: nat)
    requires forall k :: 0 <= k < |cs| ==> |cs[k].data| < TWO64
    ensures forall i :: 0 <= i < |WroteAll(cs, size).0| ==> Headed(WroteAll(cs, size).0[i]) && FitsOrOne(WroteAll(cs, size).0[i], size)
  {
    hide Framed, FitsOrOne, RollsOver, Headed;
    if cs == [] {
      HeaderFits(size);
    } else {
      var init, c := cs[..|cs| - 1], cs[|cs| - 1];
      FilesFit(init, size);
      var segs := WroteAll(init, size).0;
      OneFits(segs[|segs| - 1], c, size);
    }
  }

  lemma HeaderFits(size: nat)
    ensures FitsOrOne(SEGMENT_HEADER, size) && Headed(SEGMENT_HEADER)
  {
  }

  lemma OneFits(seg: Bytes, c: Chunk, size: nat)
    requires |c.data| < TWO64 && Headed(seg)
    ensures FitsOrOne(SEGMENT_HEADER + Framed(c), size) && Headed(SEGMENT_HEADER + Framed(c)) && Headed(seg + Framed(c))
    ensures !RollsOver(|seg|, |c.data|, size) ==> FitsOrOne(seg + Framed(c), size)
  {
    hide Framed;
    UvarintMaxLength(|c.data|);
    if |seg| == SEGMENT_HEADER_SIZE {
      assert seg == seg[..8] == SEGMENT_HEADER;
    }
  }

  /** A file is left when it holds a chunk and the next one, at fifteen bytes more than its data,
      could take it past 536870912 bytes. */
  lemma FileLeftWhenFull(segs: seq<Bytes>, c: Chunk)
    requires segs != []
    ensures var used := |segs[|segs| - 1]|;
      |Wrote(segs, c, DEFAULT_CHUNKS_SEGMENT_SIZE).0| == |segs| + (if used > 8 && used + 15 + |c.data| > 536870912 then 1 else 0)
  {
    hide Framed;
  }

  // ---- Listing a segment -----------------------------------------------------

  datatype ChunkInfo = ChunkInfo(offset: nat, encoding: byte, size: nat)

  function Listed(seg: Bytes, offset: nat): Result<seq<ChunkInfo>, ChunkError>
    decreases |seg| - offset
  {
    if offset >= |seg| then Ok([])
    else match DecodeUvarint(seg[offset..])
      case Err(_) => Err(IllegalBytes)
      case Ok((length, n)) =>
        var enc := offset + n;
        if enc + 1 + length + CHUNK_CRC_SIZE > |seg| then Err(IllegalBytes)
        else match Listed(seg, enc + 1 + length + CHUNK_CRC_SIZE)
          case Err(e) => Err(e)
          case Ok(rest) => Ok([ChunkInfo(offset % TWO32, seg[enc], length)] + rest)
  }

  function AllFramed(cs: seq<Chunk>): Bytes {
    if cs == [] then [] else Framed(cs[0]) + AllFramed(cs[1..])
  }

  /** Where the chunks of a segment are, from a given offset on. */
  function Places(cs: seq<Chunk>, offset: nat): seq<ChunkInfo> {
    if cs == [] then []
    else [ChunkInfo(offset % TWO32, cs[0].encoding, |cs[0].data|)] + Places(cs[1..], offset + |Framed(cs[0])|)
  }

  /** Listing a segment gives every chunk in it, in order. */
  lemma {:induction false} ListedBack(pre: Bytes, cs: seq<Chunk>)
    requires forall k :: 0 <= k < |cs| ==> |cs[k].data| < TWO64
    ensures Listed(pre + AllFramed(cs), |pre|) == Ok(Places(cs, |pre|))
    decreases |cs|
  {
    hide Framed, Listed;
    if cs == [] {
      assert pre + [] == pre;
      ListEnd(pre);
    } else {
      var c, rest := cs[0], AllFramed(cs[1..]);
      assert pre + AllFramed(cs) == pre + Framed(c) + rest;
      MiddlePart(pre, Framed(c), rest);
      ListOne(pre + Framed(c) + rest, |pre|, c, rest);
      ListedBack(pre + Framed(c), cs[1..]);
    }
  }

  lemma ListEnd(seg: Bytes)
    ensures Listed(seg, |seg|) == Ok([])
  {
  }

  lemma ListOne(seg: Bytes, offset: nat, c: Chunk, rest: Bytes)
    requires |c.data| < TWO64 && offset <= |seg| && seg[offset..] == Framed(c) + rest
    ensures Listed(seg, offset) ==
      Behind([ChunkInfo(offset % TWO32, c.encoding, |c.data|)], Listed(seg, offset + |Framed(c)|))
  {
    hide DecodeUvarint, Framed, Uvarint, Listed;
    var k := |Uvarint(|c.data|)|;
    FrameHead(c, rest);
    assert seg[offset..][k] == seg[offset + k];
    ListedUnfold(seg, offset, |c.data|, k);
  }

  lemma MiddlePart(a: Bytes, b: Bytes, c: Bytes)
    ensures (a + b + c)[|a|..] == b + c
  {
  }

  lemma ListedUnfold(seg: Bytes, offset: nat, length: nat, n: nat)
    requires offset < |seg| && DecodeUvarint(seg[offset..]) == Ok((length, n)) && offset + n + 1 + length + CHUNK_CRC_SIZE <= |seg|
    ensures Listed(seg, offset) ==
      Behind([ChunkInfo(offset % TWO32, seg[offset + n], length)], Listed(seg, offset + n + 1 + length + CHUNK_CRC_SIZE))
  {
    hide DecodeUvarint;
  }

  lemma FrameHead(c: Chunk, post: Bytes)
    requires |c.data| < TWO64
    ensures DecodeUvarint(Framed(c) + post) == Ok((|c.data|, |Uvarint(|c.data|)|))
    ensures |Framed(c)| == |Uvarint(|c.data|)| + 1 + |c.data| + CHUNK_CRC_SIZE
    ensures (Framed(c) + post)[|Uvarint(|c.data|)|] == c.encoding
  {
    hide ToBe, Compute, Uvarint, DecodeUvarint;
    var d := ToBe(Compute([c.encoding] + c.data), 4);
    FramedSlices(Uvarint(|c.data|), c.encoding, c.data, d, post);
    UvarintRoundTrip(|c.data|, [c.encoding] + c.data + d + post);
  }

  // ---- The writer ------------------------------------------------------------

  class ChunkWriter {
    const size: nat
    /** The directory; the last file is the open one. */
    var files: seq<Bytes>
    var seqNo: nat
    var segOffset: nat
    var closed: bool

    ghost predicate Valid()
      reads this
    {
      files != [] && seqNo == |files| - 1 && segOffset == |files[seqNo]|
    }

    constructor (size: nat)
      ensures Valid() && !closed && files == [SEGMENT_HEADER] && this.size == size
    {
      this.size := size;
      files, seqNo, closed := [SEGMENT_HEADER], 0, false;
      segOffset := SEGMENT_HEADER_SIZE;
    }

    method CutNewSegment()
      requires Valid()
      modifies this
      ensures Valid() && files == old(files) + [SEGMENT_HEADER] && closed == old(closed)
    {
      seqNo := seqNo + 1;
      files := files + [SEGMENT_HEADER];
      segOffset := SEGMENT_HEADER_SIZE;
    }

    /** Appends one chunk, in a new segment when it might not fit this one. */
    method Write(encoding: byte, data: Bytes) returns (r: Result<(nat, nat), ChunkError>)
      requires Valid() && |data| < TWO64
      modifies this
      ensures Valid() && closed == old(closed)
      ensures if old(closed) then r == Err(NotPermitted) && files == old(files)
        else
          var (segs, s, o) := Wrote(old(files), Chunk(encoding, data), size);
          files == segs && r == Ok((s, o))
    {
      hide Uvarint, ToBe, Compute;
      if closed {
        return Err(NotPermitted);
      }
      var worstCase := MAX_VARINT_LEN64 + 1 + |data| + CHUNK_CRC_SIZE;
      if segOffset > SEGMENT_HEADER_SIZE && segOffset + worstCase > size {
        CutNewSegment();
      }
      var s, o := seqNo, segOffset % TWO32;
      var buf := FrameChunk(encoding, data);
      files := files[seqNo := files[seqNo] + buf];
      segOffset := segOffset + |buf|;
      return Ok((s, o));
    }

    method Close()
      requires Valid()
      modifies this
      ensures Valid() && closed && files == old(files)
    {
      closed := true;
    }
  }

  /** The framing, with the sum taken in two steps. */
  method FrameChunk(encoding: byte, data: Bytes) returns (buf: Bytes)
    requires |data| < TWO64
    ensures buf == Framed(Chunk(encoding, data))
  {
    hide Uvarint, ToBe, Compute;
    var vbuf := new byte[MAX_VARINT_LEN64](_ => 0);
    var n := PutUvarint(vbuf, |data|);
    buf := vbuf[..n];
    buf := buf + [encoding];
    buf := buf + data;
    var sum := SumInTwo(encoding, data);
    buf := AppendBe32(buf, sum);
  }

  // ---- The reader ------------------------------------------------------------

  class ChunkReader {
    const segments: seq<Bytes>
    /** Segments loaded so far, empty before. */
    var cache: seq<Bytes>

    ghost predicate Valid()
      reads this
    {
      |cache| == |segments| && forall i :: 0 <= i < |cache| ==> cache[i] == [] || cache[i] == segments[i]
    }

    constructor (segments: seq<Bytes>)
      ensures Valid() && this.segments == segments && forall i :: 0 <= i < |cache| ==> cache[i] == []
    {
      this.segments := segments;
      cache := seq(|segments|, _ => []);
    }

    ghost function Loaded(): set<nat>
      reads this
    {
      set i | 0 <= i < |cache| && cache[i] != []
    }

    /** The bytes of a segment. Only a segment not loaded before has its header checked, and it
        stays loaded when the check fails. */
    method BytesFor(s: nat) returns (r: Result<Bytes, ChunkError>)
      requires Valid()
      modifies this
      ensures Valid()
      ensures cache == if s < |segments| then old(cache)[s := segments[s]] else old(cache)
      ensures r == if s >= |segments| then Err(NoSuchFile)
        else if old(cache)[s] == [] && !HeaderSound(segments[s]) then Err(IllegalBytes)
        else Ok(segments[s])
    {
      if s >= |cache| {
        return Err(NoSuchFile);
      }
      if cache[s] != [] {
        return Ok(cache[s]);
      }
      cache := cache[s := segments[s]];
      if |cache[s]| < SEGMENT_HEADER_SIZE {
        return Err(IllegalBytes);
      }
      if cache[s][..4] != SEGMENT_HEADER[..4] {
        return Err(IllegalBytes);
      }
      if cache[s][4] != SEGMENT_HEADER[4] {
        return Err(IllegalBytes);
      }
      return Ok(cache[s]);
    }

    /** The chunk under a reference. */
    method Read(s: nat, offset: nat) returns (r: Result<Chunk, ChunkError>)
      requires Valid()
      modifies this
      ensures Valid()
      ensures cache == if s < |segments| then old(cache)[s := segments[s]] else old(cache)
      ensures r == if s < |segments| && old(cache)[s] != [] then ChunkAt(segments[s], offset)
        else ReadChunk(segments, s, offset)
    {
      hide Update, Compute, BeValue, DecodeUvarint;
      var loaded := BytesFor(s);
      if loaded.Err? {
        return Err(loaded.error);
      }
      var bytes := loaded.value;
      if offset >= |bytes| {
        return Err(IllegalBytes);
      }
      var len := Varint.ReadUvarint(bytes[offset..]);
      if len.Err? {
        return Err(IllegalBytes);
      }
      var length := len.value.0;
      var encOff := offset + len.value.1;
      var dataOff := encOff + 1;
      var crcOff := dataOff + length;
      if crcOff + CHUNK_CRC_SIZE > |bytes| {
        return Err(IllegalBytes);
      }
      var enc, data, stored := bytes[encOff], bytes[dataOff..crcOff], BeValue(bytes[crcOff..crcOff + 4]);
      var sum := SumInTwo(enc, data);
      if sum != stored {
        return Err(IllegalBytes);
      }
      return Ok(Chunk(enc, data));
    }

    /** Every chunk of a segment, in stored order. */
    method IterateSegment(s: nat) returns (r: Result<seq<ChunkInfo>, ChunkError>)
      requires Valid()
      modifies this
      ensures Valid()
      ensures r == if s >= |segments| then Err(NoSuchFile)
        else if old(cache)[s] == [] && !HeaderSound(segments[s]) then Err(IllegalBytes)
        else Listed(segments[s], SEGMENT_HEADER_SIZE)
    {
      hide DecodeUvarint;
      var loaded := BytesFor(s);
      if loaded.Err? {
        return Err(loaded.error);
      }
      var bytes := loaded.value;
      var out: seq<ChunkInfo> := [];
      var offset := SEGMENT_HEADER_SIZE;
      EmptyFront(Listed(bytes, offset));
      while offset < |bytes|
        invariant Behind(out, Listed(bytes, offset)) == Listed(bytes, SEGMENT_HEADER_SIZE)
        modifies {}
        decreases |bytes| - offset
      {
        var len := Varint.ReadUvarint(bytes[offset..]);
        if len.Err? {
          return Err(IllegalBytes);
        }
        var size, encOff := len.value.0, offset + len.value.1;
        if encOff + 1 + size + CHUNK_CRC_SIZE > |bytes| {
          return Err(IllegalBytes);
        }
        var info := ChunkInfo(offset % TWO32, bytes[encOff], size);
        BehindSnoc(out, info, Listed(bytes, encOff + 1 + size + CHUNK_CRC_SIZE));
        out := out + [info];
        offset := encOff + 1 + size + CHUNK_CRC_SIZE;
      }
      assert out + [] == out;
      return Ok(out);
    }
  }

  method SumInTwo(encoding: byte, data: Bytes) returns (sum: nat)
    ensures sum == Compute([encoding] + data)
  {
    hide Update;
    UpdateConcat(INIT, [encoding], data);
    UpdateBound(INIT, [encoding]);
    var t := BuildTable();
    var state := UpdateByTable(t, INIT, [encoding]);
    state := UpdateByTable(t, state, data);
    sum := Xor(state, INIT);
  }

  function Behind(out: seq<ChunkInfo>, r: Result<seq<ChunkInfo>, ChunkError>): Result<seq<ChunkInfo>, ChunkError> {
    match r case Err(e) => Err(e) case Ok(rest) => Ok(out + rest)
  }

  lemma BehindSnoc(out: seq<ChunkInfo>, x: ChunkInfo, r: Result<seq<ChunkInfo>, ChunkError>)
    ensures Behind(out, Behind([x], r)) == Behind(out + [x], r)
  {
    if r.Ok? {
      assert out + ([x] + r.value) == out + [x] + r.value;
    }
  }

  lemma EmptyFront(r: Result<seq<ChunkInfo>, ChunkError>)
    ensures Behind([], r) == r
  {
    if r.Ok? {
      assert [] + r.value == r.value;
    }
  }

  // ---- Reading twice ---------------------------------------------------------

  /** A framed chunk stands somewhere in the segment. */
  ghost predicate HoldsChunk(seg: Bytes) {
    exists o: nat, c: Chunk :: |c.data| < TWO64 && Stored([seg], 0, o, c)
  }

  lemma StoredHere(seg: Bytes, offset: nat, c: Chunk)
    requires |c.data| < TWO64 && Stored([seg], 0, offset, c)
    ensures ChunkAt(seg, offset) == Ok(c)
  {
    hide Framed, ChunkAt;
    var post := seg[offset + |Framed(c)|..];
    assert seg[offset..] == Framed(c) + post;
    Shifted(seg, offset);
    FramedBack(c, post);
  }

  /** The header is checked only on the first read of a segment. First and later reads of a segment
      that holds a chunk agree at every offset exactly when the header is sound. */
  lemma SecondReadAgreesIff(seg: Bytes)
    requires HoldsChunk(seg)
    ensures (forall offset: nat :: ReadChunk([seg], 0, offset) == ChunkAt(seg, offset)) <==> HeaderSound(seg)
  {
    hide ChunkAt, HeaderSound, Stored;
    var o: nat, c: Chunk :| |c.data| < TWO64 && Stored([seg], 0, o, c);
    StoredHere(seg, o, c);
    assert ReadChunk([seg], 0, o) == ChunkAt(seg, o) ==> HeaderSound(seg);
  }

  /** A segment with a wrong magic number: any chunk in it is refused first and given out later. */
  lemma RefusedThenRead(c: Chunk)
    requires |c.data| < TWO64
    ensures var seg := [0, 0, 0, 0, 1, 0, 0, 0] + Framed(c);
      && HoldsChunk(seg) && !HeaderSound(seg)
      && ReadChunk([seg], 0, SEGMENT_HEADER_SIZE) == Err(IllegalBytes) && ChunkAt(seg, SEGMENT_HEADER_SIZE) == Ok(c)
  {
    hide Framed, ChunkAt;
    var seg := [0, 0, 0, 0, 1, 0, 0, 0] + Framed(c);
    assert seg[SEGMENT_HEADER_SIZE..SEGMENT_HEADER_SIZE + |Framed(c)|] == Framed(c);
    assert Stored([seg], 0, SEGMENT_HEADER_SIZE, c);
    StoredHere(seg, SEGMENT_HEADER_SIZE, c);
    assert seg[..4] == [0, 0, 0, 0] && SEGMENT_HEADER[..4][0] != 0;
  }

  /** Two reads of a segment not loaded before: they differ exactly when a bad header hides a chunk
      from the first one only. */
  method ReadTwice(reader: ChunkReader, s: nat, offset: nat) returns (first: Result<Chunk, ChunkError>, second: Result<Chunk, ChunkError>)
    requires reader.Valid() && s < |reader.segments| && reader.segments[s] != [] && reader.cache[s] == []
    modifies reader
    ensures first == ReadChunk(reader.segments, s, offset) && second == ChunkAt(reader.segments[s], offset)
    ensures first != second <==> !HeaderSound(reader.segments[s]) && second.Ok?
  {
    hide ChunkAt, HeaderSound;
    first := reader.Read(s, offset);
    second := reader.Read(s, offset);
    ErrorsAlike(reader.segments[s], offset);
  }

  lemma ErrorsAlike(seg: Bytes, offset: nat)
    ensures ChunkAt(seg, offset).Err? ==> ChunkAt(seg, offset) == Err(IllegalBytes)
  {
    hide Compute, BeValue, DecodeUvarint;
  }
}
