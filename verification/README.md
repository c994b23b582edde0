# A verified model of the merlion-tsdb storage engine

merlion-tsdb stores time series: label sets with samples, each a 64-bit time
and a 64-bit floating point value. This project models the engine as one stack,
from single bits to compacted blocks, and proves what each layer promises to
the one above it.

| layer | files | what is proved |
|---|---|---|
| words, varints, checksums | `words`, `varint`, `crc32c`, `crc_division`, `big_endian` | wrapping 64-bit arithmetic, LEB128 and zigzag round trips, the table-driven CRC-32C is the remainder of a division of polynomials and catches every burst of four bytes |
| bit stream | `bit_writer`, `bit_reader` | writing appends to a list of bits; the buffered reader, on all of its load paths, takes from the front of it |
| Gorilla chunk | `xor`, `xor_chunk` | any history of samples through any number of appenders is read back exactly; how long each code is |
| write-ahead log | `page`, `segment`, `record` | framing round trip with its exact condition, every truncation, segment arithmetic, record codecs |
| head | `sorting`, `labels`, `mem_series`, `series_store`, `head`, `head_block`, `query` | chunk bounds and the one way to cut, replay restores the state over every run, crash recovery, refinement of a plain map over runs with crashes |
| block files | `chunks`, `index_format`, `index_file`, `index_writer`, `index_reader` | what the staged writer produces, an independent parser finds again |
| query | `sorted_sets`, `posting_algebra`, `block`, `block_reader`, `head_to_block`, `small_block` | posting-list algebra equals the predicate on labels; a block answers as the head it came from |
| flush and compaction | `block_writer`, `compact`, `compactor`, `block_meta` | the merge gives each time its last value, and may be done in stages; what the metadata of a block says is true |
| bytes on disk | `wire_formats` | places, numbers and small examples written out, for every format |

Each layer has two parts. Functions on values say what a layer means (a bit
list, a list of records, a store, the bytes of a file). Classes and methods
follow the source statement by statement, with its fields, loops and error
returns, and are proved to compute those functions. The theorems are lemmas
about the functions, so they hold of the methods too.

Bytes are integers below 256, strings are byte sequences, a file is a byte
sequence and a directory a sequence of files in the order of their numbers. A
`double` is its 64-bit pattern. Signed 64-bit subtractions that the source
leaves unchecked wrap around. A regular expression is a predicate on strings.

On damaged chunks the source shifts by undefined amounts in two places: by a
negative one where a refill brings too few bits (`src/encoding/bstream.cpp:107`)
and by 64 or more for a window that is none (`src/chunkenc/xor.cpp:308`).
Nothing can be said of what it does then. The model ends such a read with an
error of its own, `Unspecified`, that stands for this and is passed up.

## Where the code falls short of its promise

Each of these is a theorem with the exact condition.

- A non-empty record that starts with exactly seven bytes left in its page is
  lost, and with it all that follows (`Pages.RoundTripIffHazardFree`,
  `Pages.HazardReached`).
- A log cut through the inside of a fragment does not open. One cut between
  fragments of a record opens once, and not again after the next segment has
  been added (`HeadStates.CrashRecovery`, `Segments.TornIsFatal`).
- The size estimate that decides on a new log segment can be one byte short
  (`Segments.UpperBoundWithinOne`). No run overruns its segment size exactly
  when that is at most six bytes over whole pages, or too small for a second
  record (`Segments.SegmentsFitIff`; `Segments.SegmentOverrun` is an example).
- Appending to a chunk after its spare capacity was given back is sound exactly
  on a byte boundary (`XorChunks.ResetSafeIffAligned`), where two samples need
  not end (`XorChunks.UnfilledAfterTwo`).
- A block answers all queries as the head does exactly when every series has a
  label, no empty value, and every label that a zero byte in the lookup key of
  one of its labels could be taken to begin (`HeadToBlock.AlwaysAlikeIff`). One
  zero byte in a value or in a name is enough to break it
  (`SmallBlocks.AnsweredDifferently`, `SmallBlocks.NameAnsweredDifferently`).
- A lookup key of the postings table is unambiguous exactly when it holds no
  further zero byte (`IndexFiles.UnmistakableIff`).
- The header of a chunk segment is checked on the first read only: later reads
  agree with it exactly when the header is sound (`ChunkFiles.SecondReadAgreesIff`,
  `ChunkFiles.RefusedThenRead`). What a query on a block then answers is part of
  `BlockReaders.OpenBlock.Select`.

Where comments in the source say otherwise, the model follows the code:

- `include/merlion_tsdb/block/block.hpp` says that compaction keeps duplicate
  samples of overlapping inputs; the code keeps the last one of each time.
- `include/merlion_tsdb/block/chunks.hpp` says that a reference holds the number
  in the file name; it is the position counted from zero.
- `include/merlion_tsdb/block/index_writer.hpp` asks for strictly ascending
  symbols; an equal one is let through.
- `include/merlion_tsdb/wal/segment_reader.hpp` says that a bad checksum in an
  earlier segment counts as mid-stream corruption; only a torn record does, and
  a bad checksum is reported as such in every segment.

## Model

| member | source | states |
|---|---|---|
| `Words.WrapAddBack` | src/wal/record.cpp:199-207 | adding a wrapped 64-bit difference back restores the minuend, whatever the difference, overflow included |
| `Varint.UvarintRoundTrip` | src/encoding/varint.cpp:7-50 | decoding an LEB128 code gives the number and the code's length, for every 64-bit number and any bytes behind it |
| `Varint.VarintRoundTrip` | src/encoding/varint.cpp:18-61 | the same for signed numbers through zigzag |
| `Varint.UvarintMaxLength` | src/encoding/varint.cpp:7-16 | no code is longer than ten bytes and the last byte of a ten-byte code is at most 1, which is what the overflow test of the reader lets through |
| `WireFormats.UvarintGroups` | src/encoding/varint.cpp:7-16 | groups of seven bits, the lowest first, the top bit set on all but the last |
| `Varint.DecodedBound` | src/encoding/varint.cpp:26-50 | whatever the bytes, an accepted value fits 64 bits |
| `Varint.ZigZagByShift` | src/encoding/varint.cpp:18-24 | the shift-and-xor form equals the arithmetic form 2x or -2x-1 |
| `Varint.PutUvarint` | src/encoding/varint.cpp:7-16 | the loop writes exactly the code at the front of the buffer and leaves the rest alone |
| `Varint.PutVarint` | src/encoding/varint.cpp:18-24 | the same for signed numbers |
| `Varint.ReadUvarint` | src/encoding/varint.cpp:26-50 | the shifting loop returns what the recursive decoding of the groups returns, with the same errors |
| `Varint.ReadVarint` | src/encoding/varint.cpp:52-61 | the same for signed numbers |
| `Crc32c.TableStep` | src/encoding/crc32c.cpp:13-37 | one table lookup equals eight steps of the bitwise division |
| `Crc32c.BuildTable` | src/encoding/crc32c.cpp:13-25 | the nested loops fill the table with eight division steps of each index |
| `Crc32c.UpdateByTable` | src/encoding/crc32c.cpp:27-37 | the table loop computes the bitwise division of all bytes |
| `Crc32c.ComputeByTable` | src/encoding/crc32c.cpp:27-37 | the table loop with both inversions gives the checksum that the division of polynomials defines (`CrcDivision.ComputeIsDivision`) |
| `CrcDivision.ComputeIsDivision` | src/encoding/crc32c.cpp:11-37 | the checksum is the remainder of the message modulo the Castagnoli polynomial, written out term by term, the first 32 bits complemented, 32 zeros behind, and complemented again, for every byte string |
| `CrcDivision.PolynomialIsModulus` | src/encoding/crc32c.cpp:11 | the constant of the source is that polynomial with its lowest power in the highest bit |
| `Crc32c.UpdateConcat` | src/encoding/crc32c.cpp:27-37 | a checksum may be taken piece by piece |
| `Crc32c.BurstDetected` | src/encoding/crc32c.cpp:13-37 | two equally long strings that differ only inside four consecutive bytes never have the same checksum |
| `Bstream.PackBits` | src/encoding/bstream.cpp:12-51 | the bytes of a bit list are its bits followed by fewer than eight zeros |
| `Bstream.PackUnique` | src/encoding/bstream.cpp:12-51 | a byte string whose unused low bits are zero is the packing of its used bits |
| `Bstream.BitWriter.constructor` | src/encoding/bstream.cpp:55-60 | adopted bytes are all used bits |
| `Bstream.BitWriter.Reset` | include/merlion_tsdb/encoding/bstream.hpp:46-50 | the bytes stay and the bit position moves to the byte end |
| `Bstream.BitWriter.WriteBit` | src/encoding/bstream.cpp:12-21 | appends one bit to the bit list |
| `Bstream.BitWriter.WriteByte` | src/encoding/bstream.cpp:23-33 | appends eight bits, across a byte border where needed |
| `Bstream.BitWriter.WriteBits` | src/encoding/bstream.cpp:35-51 | appends the right-most bits of a word, most significant first |
| `Bstream.BitWriter.PatchHeader` | src/chunkenc/xor.cpp:89-100 | rewriting the two header bytes changes no later bit |
| `BitReading.BitReader.constructor` | src/encoding/bstream.cpp:55-60 | a reader starts with all bits of the bytes before it |
| `BitReading.BitReader.LoadNextBuffer` | src/encoding/bstream.cpp:138-187 | the fast, the slow and the cached-tail load all keep the list of bits still to be read |
| `BitReading.BitReader.ReadBit` | src/encoding/bstream.cpp:62-71 | the next bit of the list, or the end of the stream exactly when none is left |
| `BitReading.BitReader.ReadBits` | src/encoding/bstream.cpp:79-110 | the next bits as a number, most significant first, whatever refills happen on the way; an error exactly when too few are left, and which one |
| `BitReading.BitReader.ReadByte` | src/encoding/bstream.cpp:73-77 | the next eight bits |
| `BitReading.BitReader.ReadUvarint` | src/encoding/bstream.cpp:112-128 | a code read from any bit position; a code cut short and an overlong one give their errors |
| `BitReading.BitReader.ReadVarint` | src/encoding/bstream.cpp:130-136 | the same for signed numbers, which always fit |
| `BitReading.BitUvarintRoundTrip` | src/encoding/bstream.cpp:112-128 | a code written byte by byte into a bit stream is read back and nothing behind it is consumed |
| `XorCode.FoldRestores` | src/chunkenc/xor.cpp:16-44 | the range test of a payload width holds exactly for the differences that sign extension gives back |
| `XorCode.DodRoundTrip` | src/chunkenc/xor.cpp:123-145 | every difference of differences is read back from the five-way prefix code |
| `XorCode.DodLength` | src/chunkenc/xor.cpp:123-145 | the mark in front of a difference of differences and how many bits it takes, with the five ranges as numbers |
| `XorCode.ValueRoundTrip` | src/chunkenc/xor.cpp:240-311 | every value is read back and both sides go on with the same window once one has been sent |
| `XorCode.ValueLength` | src/chunkenc/xor.cpp:240-276 | a zero bit for an unchanged value; for a change inside the last window the mark 10 and the window; for any other the mark 11 and eleven bits more than the narrowest place of its set bits behind at most 31 skipped ones |
| `MemSeriesModel.SteadyStep` | src/chunkenc/xor.cpp:86-145 | a sample at the same step with the same value costs two zero bits, whatever came before |
| `XorCode.SampleRoundTrip` | src/chunkenc/xor.cpp:89-229 | a decoder in the state that follows the encoder's reads the sample and lands in the state that follows the encoder's next one |
| `XorCode.ChunkRoundTrip` | src/chunkenc/xor.cpp:71-311 | for every history of appends, of appenders taken anew and of resets at a byte end, on all 64-bit times and value patterns, reading as many samples as were written gives them back in order and leaves what follows |
| `XorCode.ResetLegible` | src/chunkenc/xor.cpp:61-69 | resetting the bit position alone loses no sample |
| `XorCode.DecRunPrefix` | src/chunkenc/xor.cpp:171-229 | reading fewer samples gives the first ones |
| `XorChunks.ChunkBytesDecode` | src/chunkenc/xor.cpp:48-229 | the same for whole chunks with their two-byte count, for up to 65535 samples |
| `XorChunks.EndState` | src/chunkenc/xor.cpp:71-81 | an iterator at the end of a chunk has the state its encoder left behind |
| `XorChunks.ResetSafeIffAligned` | src/chunkenc/xor.cpp:61-69 | after a reset, an appender is sound for every next sample exactly when the last byte of the chunk was full |
| `XorChunks.UnfilledAfterTwo` | src/chunkenc/xor.cpp:61-69 | after two samples of equal value the last byte is not full, so some third sample is lost after a reset |
| `XorChunks.AppendAfterCompact` | src/chunkenc/xor.cpp:61-152 | giving back capacity, taking an appender and appending leaves the history with a reset in it, and reads back as it should when the last byte was full |
| `XorChunks.PutUvarintViaWriter` | src/chunkenc/xor.cpp:22-28 | appends the bits of the code |
| `XorChunks.PutVarintViaWriter` | src/chunkenc/xor.cpp:29-34 | appends the bits of the signed code |
| `XorChunks.WriteDod` | src/chunkenc/xor.cpp:123-145 | the five-way code, with the byte-wise form of the 14-bit case |
| `XorChunks.XorWrite` | src/chunkenc/xor.cpp:240-276 | appends the value code and moves the window as the code says |
| `XorChunks.ReadDod` | src/chunkenc/xor.cpp:187-218 | the inverse, one prefix bit at a time; an error exactly when the code is cut short |
| `XorChunks.XorRead` | src/chunkenc/xor.cpp:278-311 | the inverse of the value code, six zero bits standing for a width of 64; an error exactly when the bits run out or the window is none |
| `XorChunks.XORAppender.Append` | src/chunkenc/xor.cpp:89-152 | appends the code of one sample, or refuses exactly when the chunk has 65535 samples |
| `WireFormats.ChunkOfThree` | src/chunkenc/xor.cpp:86-145 | the bytes of a chunk of three samples |
| `XorChunks.XORAppender.Recovered` | src/chunkenc/xor.cpp:71-81 | an appender rebuilt from the iterator's end state continues the same history |
| `XorChunks.XORIterator.Next` | src/chunkenc/xor.cpp:171-229 | on any bytes, each call yields the next sample while one can be decoded, and then reports the end, or an error exactly when the header promises more samples |
| `XorChunks.ReadAll` | src/chunkenc/xor.cpp:160-229 | iterating any chunk gives what its bytes decode to, or an error exactly when they do not |
| `XorChunks.XORChunk.Appender` | src/chunkenc/xor.cpp:71-81 | taking an appender, also after a reset, records one resumption and nothing else; there is none exactly when samples cannot be read |
| `XorChunks.XORChunk.NumSamples` | src/chunkenc/xor.cpp:55-59 | the header counts the samples appended |
| `XorChunks.XORChunk.Compact` | src/chunkenc/xor.cpp:61-69 | the bytes stay, and the chunk holds its history with a reset |
| `XorChunks.XORChunk.FromBytes` | include/merlion_tsdb/chunkenc/xor.hpp:36-40 | adopted bytes of a chunk hold its history with a reset |
| `Sorting.StableSortLastWins` | src/model/labels.cpp:40-57 | stable sorting does not change which value comes last for a key |
| `Sorting.LastWinsMeaning` | src/model/labels.cpp:40-57 | what the last-wins meaning of a list is: the value at the last place of each key |
| `Sorting.CollapseMeaning` | src/model/labels.cpp:40-57 | sorting stably and keeping the last entry of each run leaves keys strictly ascending and keeps the last-wins meaning |
| `Sorting.AscendingUnique` | src/model/labels.cpp:40-57 | a strictly ascending list is determined by its meaning |
| `Sorting.CollapseIdempotent` | src/model/labels.cpp:40-57 | canonicalizing what is strictly ascending already changes nothing |
| `Sorting.SkipRepeated` | src/model/labels.cpp:45-56 | the loop that skips an entry whose successor has the same name keeps the last entry of each run |
| `Sorting.KeepRunEnds` | src/block/block.cpp:294-304 | the loop of compaction that looks for the end of each run of equal times keeps the same entries |
| `LabelSets.LessMeaning` | src/model/labels.cpp:41-44 | the order of strings: the first difference has the smaller byte, or the end, in the lower one |
| `LabelSets.Canonicalize` | src/model/labels.cpp:40-57 | the in-place sort and deduplication, as a whole |
| `LabelSets.CanonicalMeaning` | src/model/labels.cpp:40-57 | a label set is the canonical form of a list exactly when both give the same last value to every name |
| `LabelSets.NamesInOrder` | src/model/labels.cpp:40-57 | in every label set each name comes byte by byte before every later one |
| `LabelSets.Lookup` | src/model/labels.cpp:59-67 | binary search finds the value of a name, or nothing exactly when the name is not there |
| `LabelSets.LabelsMatchAll` | src/head/head.cpp:202-209 | the early-exit loop accepts exactly the label sets every matcher accepts, absent labels reading as empty |
| `LabelSets.AcceptsMeaning` | src/head/head.cpp:202-209 | what each kind of matcher accepts, by the labels themselves, an absent one counting as empty |
| `MemSeriesModel.WellCutBounds` | src/head/mem_series.cpp:25-48 | a chunk cut by the size rule never exceeds 1024 bytes nor 3974 samples |
| `MemSeriesModel.FullWhenLeft` | src/head/mem_series.cpp:30-33 | every chunk but the last of a series has between 1006 and 1024 bytes |
| `MemSeriesModel.LeftWhenShort` | src/head/mem_series.cpp:30-33 | 1005 bytes is the exact bound: beyond it, and only there, one more sample could take a full chunk past 1024 bytes |
| `MemSeriesModel.CutsUnique` | src/head/mem_series.cpp:25-48 | the samples of a series settle its chunks: there is one way to cut them |
| `MemSeriesModel.AppendedMeaning` | src/head/mem_series.cpp:25-48 | an append, cutting or not, adds one sample at the end and keeps every bound and the order of times |
| `MemSeriesModel.ChunksDecode` | src/head/mem_series.cpp:25-48 | over any append history the chunks are within both bounds and decode to the accepted samples |
| `MemSeriesModel.CountBelowLimit` | src/head/mem_series.cpp:34-44 | the retry for a full 16-bit count cannot be reached |
| `MemSeriesModel.MemSeries.CutChunk` | src/head/mem_series.cpp:14-23 | adds an empty chunk and an appender for it |
| `MemSeriesModel.MemSeries.Append` | src/head/mem_series.cpp:25-48 | fails exactly when the time is below the last one, and otherwise adds the sample |
| `SeriesStores.CreatedKeeps` | src/head/series_store.cpp:19-30 | creation on demand keeps both indexes in step, gives a label set its one reference and leaves all other series alone |
| `SeriesStores.RefsInOrder` | src/head/series_store.cpp:19-30 | new series get the references 1, 2, 3 and so on |
| `SeriesStores.InsertedKeeps` | src/head/series_store.cpp:42-59 | an insertion is refused exactly when the reference is reserved or one side of the pair is bound elsewhere |
| `SeriesStores.WithSampleKeeps` | src/head/head.cpp:69-84 | a sample reaches its series and no other, and is refused exactly when the series is missing or has a later sample |
| `SeriesStores.PlaceAppendCommute` | src/head/head.cpp:176-195 | a new series and a sample of another one may enter in either order |
| `SeriesStores.SeriesStore.GetOrCreate` | src/head/series_store.cpp:19-30 | the vector and the map change as the abstract store does |
| `SeriesStores.SeriesStore.InsertWithRef` | src/head/series_store.cpp:42-59 | the same under a given reference; a refusal changes nothing |
| `SeriesStores.SeriesStore.AppendSample` | src/head/series_store.cpp:32-40 | a sample appended through the store is the abstract append |
| `SeriesStores.SeriesStore.AllSeries` | src/head/series_store.cpp:61-73 | every live series, by ascending reference |
| `Pages.RoundTripIffHazardFree` | src/wal/page.cpp:30-175 | any history of records and page closings is read back, record by record and then a clean end, exactly when no non-empty record started with seven bytes left in its page |
| `Pages.HazardReached` | src/wal/page.cpp:12-63 | after a first record of 32754 bytes the round trip fails for every second record that is not empty |
| `Pages.HazardRead` | src/wal/page.cpp:153-158 | such a record is reported as an unexpected first fragment |
| `Pages.RecordRead` | src/wal/page.cpp:112-175 | any other record is read back whatever stands before and after it |
| `Pages.FragDamaged` | src/wal/page.cpp:140-150 | a fragment whose body changed inside four consecutive bytes is always reported as a checksum mismatch |
| `Pages.BufferDamaged` | src/wal/page.cpp:140-175 | with the body of any fragment of any record changed inside four consecutive bytes, the records in front are read and then a checksum mismatch is reported |
| `Pages.FragCut` | src/wal/page.cpp:89-140 | a fragment cut anywhere inside is reported as an unexpected end |
| `Pages.TruncationSafety` | src/wal/page.cpp:89-175 | for every cut, the reader returns exactly the records complete before it, then a clean end at a record end or in padding, a torn record at an inner fragment boundary, an unexpected end elsewhere |
| `Pages.TruncatedIsPrefix` | src/wal/page.cpp:112-175 | what survives a cut is a prefix of what was logged |
| `Pages.CutReadsPrefix` | src/wal/page.cpp:112-175 | whatever the history, lost records included, and whatever the cut, a prefix of the logged records is read |
| `Pages.CutReadsRest` | src/wal/page.cpp:112-175 | whatever the history and the cut: unless the reader meets the record the framing loses, it returns all records but those that end behind the cut |
| `Pages.PageWriter.WriteHeader` | src/wal/page.cpp:18-28 | type, big-endian length and checksum of a fragment |
| `Pages.PageWriter.Log` | src/wal/page.cpp:30-63 | the fragment loop appends the framing of the record at the current page offset |
| `WireFormats.RecordBytes` | src/wal/page.cpp:30-63 | the bytes of a record of one, two or three parts, with lengths and kinds as numbers |
| `Pages.PageWriter.ClosePage` | src/wal/page.cpp:65-69 | zeros up to the page end, none at a page start |
| `Pages.PageReader.ReadFragment` | src/wal/page.cpp:89-150 | one fragment, its checksum checked |
| `Pages.PageReader.NextRecord` | src/wal/page.cpp:112-175 | the reassembly loop returns the next record or the first thing wrong with it, and where it stopped |
| `Segments.DirectoryReadsBack` | src/wal/segment_reader.cpp:93-131 | over any run of logging and cutting, the segments read back as exactly the logged records and a clean end, exactly when no record met the seven-byte room |
| `Segments.ReadsBack` | src/wal/segment_reader.cpp:93-131 | the same for any directory; otherwise reading ends in invalid framing |
| `Segments.CrashRead` | src/wal/segment_reader.cpp:93-131 | with the last segment cut anywhere, all records complete on disk are read; the end is clean unless the cut went through the inside of a fragment |
| `Segments.CrashReadAgain` | src/wal/segment_reader.cpp:108-118 | once further segments follow, only a cut between records is forgiven; a torn record is then fatal |
| `Segments.WholeContinues` | src/wal/segment_reader.cpp:93-131 | any readable directory whose last segment is whole is read on into whatever follows |
| `Segments.TornIsFatal` | src/wal/segment_reader.cpp:108-128 | any directory readable only because its torn segment is the last becomes unreadable once another follows |
| `Segments.CrashReadsPrefix` | src/wal/segment_reader.cpp:93-131 | with the last segment cut anywhere, a prefix of what was logged is read |
| `Segments.CrashReadsRest` | src/wal/segment_reader.cpp:93-131 | a directory that can be read after a crash, lost records or not, gives all records but those of the last segment that end behind the cut |
| `Segments.DirectoryDamaged` | src/wal/segment_reader.cpp:26-40 | the same for a directory, in any of its segments: the records in front are read, then the checksum error is reported |
| `Segments.StrangeStart` | src/wal/segment_reader.cpp:26-40 | a segment that starts with a compression flag or with a type that is none ends the reading with the error that says so |
| `Segments.FrameSizeExact` | src/wal/segment_writer.cpp:144-155 | the length of a framed record in closed arithmetic |
| `Segments.UpperBoundWithinOne` | src/wal/segment_writer.cpp:144-155 | the estimate is never short by more than one byte, and short exactly when the record crosses a page without the part in front saving a page |
| `Segments.FrameEnd` | src/wal/page.cpp:30-63 | no record ends within a header's length of a page start |
| `Segments.SegmentsFit` | src/wal/segment_writer.cpp:157-204 | with a size too small for a second record, or at most six bytes over whole pages, every segment of two or more records fits in it, padding included |
| `Segments.SegmentsFitIff` | src/wal/segment_writer.cpp:144-204 | every run fits its segment size exactly when the size is below 20 or at most six bytes over a whole number of pages |
| `Segments.SegmentOverrun` | src/wal/segment_writer.cpp:144-171 | one overrun in numbers: two records reach 32776 bytes in a segment of 32775 |
| `Segments.SegmentWriter.constructor` | src/wal/segment_writer.cpp:102-126 | opening adds one empty segment behind whatever files there are |
| `Segments.SegmentWriter.Log` | src/wal/segment_writer.cpp:157-171 | a record goes to the current segment or, when the estimate does not fit, to a new one after padding |
| `HeadStates.LogLeftWhenFull` | src/wal/segment_writer.cpp:157-171 | a log segment is left exactly when it holds something and the estimate passes 134217728 bytes |
| `Segments.SegmentWriter.FlushPending` | src/wal/segment_writer.cpp:173-181 | the file catches up with the page buffer |
| `Segments.SegmentWriter.Cut` | src/wal/segment_writer.cpp:190-204 | pads the segment and starts the next |
| `Segments.SegmentReader.NextRecord` | src/wal/segment_reader.cpp:93-131 | the loop over segments yields the records of the directory one by one and then its final error |
| `WalRecords.SeriesRoundTrip` | src/wal/record.cpp:124-163 | a series record decodes to the entries it was made of |
| `WalRecords.SamplesRoundTrip` | src/wal/record.cpp:184-257 | a sample record decodes to its samples for all references, times, start times and values, decreasing and overflowing ones included |
| `WalRecords.RefBack` | src/wal/record.cpp:199-207 | a reference is recovered from its wrapped difference |
| `WalRecords.SeriesErrors` | src/wal/record.cpp:138-163 | a malformed series record is only ever reported as of the wrong type or cut short |
| `WalRecords.EncodeSeriesRecord` | src/wal/record.cpp:124-136 | the pushing loops build the encoding |
| `WireFormats.SeriesRecordBytes` | src/wal/record.cpp:124-136 | the bytes of a series record |
| `WalRecords.EncodeSamplesRecord` | src/wal/record.cpp:184-209 | the same for samples, with the three start-time markers |
| `WireFormats.SamplesRecordBytes` | src/wal/record.cpp:184-209 | the bytes of a samples record with each of the three start-time markers |
| `WalRecords.DecodeSeriesRecord` | src/wal/record.cpp:138-163 | the cursor with its sticky error decodes as the recursive definition, errors included |
| `WalRecords.DecodeSamplesRecord` | src/wal/record.cpp:211-257 | the same for samples |
| `WalRecords.Decoder.ReadUvarint` | src/wal/record.cpp:89-94 | the cursor moves past a code or remembers the error |
| `WalRecords.Decoder.ReadStr` | src/wal/record.cpp:103-112 | a length-prefixed string, or an error that sticks |
| `HeadStates.InvariantKept` | src/head/head.cpp:130-195 | after every call, starts and crashes included, replaying the log and then the pending records would give the store in memory |
| `HeadStates.RunInvariant` | src/head/head.cpp:130-272 | the same over every run of calls |
| `HeadStates.CommittedKeeps` | src/head/head.cpp:176-195 | committing logs the series before the samples, and the log then replays to the store |
| `HeadStates.AppendAllAfterPlaced` | src/head/head.cpp:56-84 | a series created after samples were taken could as well have been there before them |
| `HeadStates.OpenedIff` | src/head/head.cpp:35-151 | a directory opens to the replay of its log exactly when no record met the seven-byte room and no earlier crash left a torn record |
| `HeadStates.ReopenRestores` | src/head/head.cpp:35-89 | closing and opening gives back references, label sets, next reference and every chunk, with the exact condition on the log |
| `HeadStates.EveryPrefixReplays` | src/head/head.cpp:35-89 | every prefix of the log replays, over runs with crashes: no sample before its series, no reference bound twice, no time going back |
| `HeadStates.OthersSkipped` | src/head/head.cpp:35-89 | records of other types are passed over wherever they stand in the log |
| `HeadStates.CrashRecovery` | src/head/head.cpp:130-151 | for every cut of the last segment, after any run: which records survive, whether the head opens, and whether it opens once more after that |
| `HeadStates.HeadRefinesNaive` | src/head/head.cpp:130-272 | over any run with crashes after which the log still opens, the head holds the samples a plain map from label sets to samples holds, every prefix of the log replays to what that map held then, and a crash takes the map back by the records that end behind the cut |
| `HeadStates.ChunksFromSamples` | src/head/head.cpp:130-272 | after any run with crashes, the chunks of a series are the one way to cut the samples that the plain map holds for it |
| `HeadBlocks.ReplayWal` | src/head/head.cpp:35-89 | the replay loop rebuilds the store or fails, as the fold over the records does |
| `HeadBlocks.ApplyRecord` | src/head/head.cpp:48-86 | one record applied to the store in place |
| `HeadBlocks.HeadBlock.Open` | src/head/head.cpp:130-151 | opening any files is replay followed by a new segment, or fails |
| `HeadBlocks.HeadBlock.Append` | src/head/head.cpp:153-174 | the whole state after an append, and its result: a reference, or refusal after closing or for a time below the last |
| `HeadBlocks.HeadBlock.Commit` | src/head/head.cpp:176-195 | the whole state after a commit |
| `HeadBlocks.HeadBlock.Close` | src/head/head.cpp:266-272 | the whole state after closing, which may be repeated |
| `HeadBlocks.HeadBlock.Select` | src/head/head.cpp:213-264 | every live series all matchers accept, with its overlapping chunks, by ascending reference; no matcher is an error |
| `HeadBlocks.ChunkRange` | src/head/head.cpp:228-248 | walking any chunk finds its first and last time, that it has none, or an error exactly when it does not decode |
| `HeadBlocks.RangeIsTrue` | src/head/head.cpp:228-248 | these bound every time in the chunk |
| `HeadBlocks.SampleInRangeFound` | src/head/head.cpp:213-264 | no sample in the queried range is lost |
| `HeadBlocks.OverlappingMeaning` | src/head/head.cpp:230-255 | the chunks listed for a series are exactly those whose first time is not after the range and whose last is not before it, in order, with bytes and times |
| `HeadBlocks.AnswersMeaning` | src/head/head.cpp:213-264 | a query answers with exactly the accepted series that have such a chunk, in order |
| `HeadBlocks.AnswersMeetRange` | src/head/head.cpp:245 | every chunk that an answer lists meets the queried range by its two times |
| `ChunkFiles.ChunksReadBack` | src/block/chunks.cpp:126-330 | every chunk is read back under its reference, whatever was written later and however often a new segment began |
| `ChunkFiles.ListedBack` | src/block/chunks.cpp:332-358 | listing a segment gives every chunk in it with its place |
| `ChunkFiles.FilesFit` | src/block/chunks.cpp:168-207 | every chunk file starts with its header and keeps to its size unless it holds one chunk |
| `ChunkFiles.FileLeftWhenFull` | src/block/chunks.cpp:168-190 | a chunk file is left exactly when it holds a chunk and the next one could take it past 536870912 bytes |
| `WireFormats.ChunkFileBytes` | src/block/chunks.cpp:168-207 | the bytes of a chunk file with one chunk and the reference it got |
| `WireFormats.ChunkHeaderSound` | src/block/chunks.cpp:280-289 | what is checked of the header of a chunk file |
| `WireFormats.ReferenceBits` | src/block/chunks.cpp:168-207 | a packed reference with each half |
| `ChunkFiles.UnpackedPacked` | include/merlion_tsdb/block/chunks.hpp:46-64 | a reference survives packing into 64 bits |
| `ChunkFiles.SecondReadAgreesIff` | src/block/chunks.cpp:263-291 | first and later reads of a segment that holds a chunk agree at every offset exactly when its header is sound, for later ones skip the check |
| `ChunkFiles.RefusedThenRead` | src/block/chunks.cpp:263-291 | with a wrong magic number, any chunk is refused on the first read and given out on the second |
| `ChunkFiles.ReadTwice` | src/block/chunks.cpp:263-330 | two reads in a row differ exactly when a bad header hides a chunk from the first |
| `ChunkFiles.ChunkWriter.Write` | src/block/chunks.cpp:168-207 | the segments and the reference after a write, rollover included |
| `ChunkFiles.ChunkReader.BytesFor` | src/block/chunks.cpp:263-291 | which segments are in the cache afterwards and when the header is checked |
| `ChunkFiles.ChunkReader.Read` | src/block/chunks.cpp:293-330 | length, encoding, data and checksum parsed with their errors |
| `ChunkFiles.ChunkReader.IterateSegment` | src/block/chunks.cpp:332-358 | every chunk of a segment in stored order |
| `IndexFormat.SparseIsLinear` | src/block/index.cpp:208-302 | for every file whose symbols parse, the jump to a 32nd symbol and a short walk find what the walk from the first symbol finds |
| `IndexFormat.SymbolsBack` | src/block/index.cpp:208-287 | a written symbol section gives back symbol i under reference i |
| `IndexFormat.SeriesPayloadBack` | src/block/index.cpp:83-169 | a written series entry gives back its labels and its delta-coded chunk metadata |
| `IndexFormat.SectionBack` | src/block/index.cpp:39-57 | a section with a fixed-width length is read back with its checksum checked |
| `IndexFormat.VarSectionBack` | src/block/index.cpp:59-81 | the same with a varint length |
| `IndexFiles.TocBack` | src/block/index.cpp:171-191 | the table of contents is found at the end of any file |
| `IndexFiles.IndexOpens` | src/block/index.cpp:317-363 | a written index opens with its symbols, its postings table and its offsets, whatever bytes the names hold |
| `IndexFiles.SeriesFound` | src/block/index.cpp:413-424 | every series is found under the identifier its writing gave, with its resolved labels and its chunk metadata |
| `IndexFiles.SeriesIdsAscend` | src/block/index_writer.cpp:150-165 | series get strictly ascending identifiers |
| `IndexFiles.SeriesPacked` | src/block/index_writer.cpp:150-165 | series stand one behind the other, each at the next multiple of 16 |
| `IndexFiles.PostingsPacked` | src/block/index_writer.cpp:242-271 | posting lists stand one behind the other, each at the next multiple of 4 |
| `WireFormats.IndexHead` | src/block/index_writer.cpp:124-148 | how an index file starts: magic number, version and the symbol section |
| `WireFormats.IndexFoot` | src/block/index_writer.cpp:294-302 | how it ends: six places as 64-bit numbers and their checksum |
| `WireFormats.SymbolBytes` | src/block/index_writer.cpp:102-122 | the bytes of a symbol list |
| `WireFormats.SeriesEntryBytes` | src/block/index_writer.cpp:165-221 | the bytes of a series entry with two chunks |
| `WireFormats.TableEntryBytes` | src/block/index_writer.cpp:279-291 | the bytes of a postings table entry |
| `WireFormats.PostingBytes` | src/block/index_writer.cpp:242-271 | the bytes of a posting list |
| `IndexFiles.PostingsFound` | src/block/index.cpp:365-370 | every posting list that is the first of its key is found under its pair |
| `IndexFiles.PlainIsFirst` | src/block/index.cpp:365-370 | among distinct pairs with zero-free names every list is the first of its key |
| `IndexFiles.PostingsAbsent` | src/block/index.cpp:365-370 | any pair has no postings exactly when no written pair has its key or the first that has it has an empty list |
| `IndexFiles.PostingsByKey` | src/block/index.cpp:495-519 | any pair finds the list of the first written pair that has its key |
| `IndexFiles.KeyUnique` | src/block/index.cpp:495-506 | without a zero byte in the names a lookup key stands for one pair |
| `IndexFiles.UnmistakableIff` | src/block/index.cpp:495-519 | among all pairs, a key stands for one exactly when neither the name nor the value holds a zero byte |
| `IndexFiles.KeyAmbiguous` | src/block/index.cpp:495-519 | with zero bytes the posting list of one pair is found for another |
| `IndexWriters.IndexWriter.AddSymbol` | src/block/index_writer.cpp:102-122 | references count up, and only a symbol below the last one is refused |
| `IndexWriters.IndexWriter.FinishSymbols` | src/block/index_writer.cpp:124-148 | the stage moves on and the section's length, count and checksum are in place |
| `IndexWriters.IndexWriter.AddSeries` | src/block/index_writer.cpp:150-221 | the entry goes to the next 16-byte boundary and its identifier is that position divided by 16 |
| `IndexWriters.IndexWriter.FinishSeries` | src/block/index_writer.cpp:223-240 | the stage moves on |
| `IndexWriters.IndexWriter.AddPostings` | src/block/index_writer.cpp:242-271 | a list is taken exactly when its identifiers strictly ascend |
| `IndexWriters.IndexWriter.Close` | src/block/index_writer.cpp:273-329 | the buffer, backpatched lengths and all, is the file the format prescribes for what was added |
| `IndexWriters.IndexWriter.PatchBe32` | src/block/index_writer.cpp:68-74 | a backpatch changes four bytes and no others |
| `IndexReaders.ParseSymbolTable` | src/block/index.cpp:208-244 | the walk that keeps every 32nd position |
| `IndexReaders.LookupSymbol` | src/block/index.cpp:246-287 | the sparse lookup, with its errors |
| `IndexReaders.AllSymbols` | src/block/index.cpp:289-302 | the full walk lists what every reference stands for |
| `IndexReaders.DecodeEntry` | src/block/index.cpp:83-169 | the parse loops of a series entry, with their errors |
| `IndexReaders.ReadTable` | src/block/index.cpp:428-493 | the parse loop of the postings table |
| `IndexReaders.ReadPostings` | src/block/index.cpp:523-541 | the parse loop of a posting list |
| `IndexReaders.IndexReader.Open` | src/block/index.cpp:317-363 | header, table of contents, symbols and postings table, with their errors |
| `WireFormats.IndexRefused` | src/block/index.cpp:317-345 | which files are refused for their length, magic number or version |
| `IndexReaders.IndexReader.Postings` | src/block/index.cpp:365-370 | the list of a pair, empty when the key is not in the table |
| `IndexReaders.IndexReader.PostingsForName` | src/block/index.cpp:372-387 | the sorted union of all lists of a name |
| `IndexReaders.IndexReader.AllPostings` | src/block/index.cpp:389-400 | the sorted union of all lists |
| `IndexReaders.IndexReader.LabelValues` | src/block/index.cpp:402-411 | exactly the values that the table has under a name, once each and in byte order |
| `IndexReaders.IndexReader.Series` | src/block/index.cpp:413-424 | the entry at sixteen times the identifier |
| `SortedSets.SortUniqueMeaning` | src/block/block.cpp:446-503 | sorting and removing repetitions keeps the members and leaves them strictly ascending |
| `SortedSets.IntersectionMeaning` | src/block/block.cpp:398-408 | the intersection of ascending lists |
| `SortedSets.DifferenceMeaning` | src/block/block.cpp:410-419 | the difference of ascending lists |
| `PostingAlgebra.BlockAcceptsIff` | src/block/block.cpp:425-505 | for every matcher: what a block makes of it on a series is what it means exactly unless it asks for an empty value that the label has, or the first table entry of the same key as a pair it asks for answers otherwise than that pair |
| `PostingAlgebra.AllAgreeIff` | src/block/block.cpp:425-505 | where no value is empty, a block reads every matcher on a series as it is meant exactly when the series has every label that a zero byte in the key of one of its labels could be taken to begin |
| `PostingAlgebra.KeyIds` | src/block/index.cpp:365-370 | the list found for any pair, whatever bytes names and values hold, is exactly the series with the first pair of the table that has its key |
| `PostingAlgebra.RegexIdsAre` | src/block/block.cpp:450-503 | resolving a regular expression by listed values and adding the series without the name finds those with the first pair of the key of an accepted value, and those without the name when the empty string is accepted |
| `PostingAlgebra.PostingsForIs` | src/block/block.cpp:425-505 | for every matcher and any names and values, union and complement of posting lists give, ascending and once each, exactly the labelled series the block's reading of it accepts |
| `PostingAlgebra.NarrowedIs` | src/block/block.cpp:517-531 | intersecting over all matchers, with the early stop, gives exactly the labelled series every matcher accepts |
| `PostingAlgebra.PostingsForMatcher` | src/block/block.cpp:425-505 | the case analysis on an opened index computes that list |
| `PostingAlgebra.Narrow` | src/block/block.cpp:517-531 | the narrowing loop computes that intersection |
| `BlockModel.BlockRepresents` | src/block/block.cpp:51-206 | the index of a created block opens, its table lists every label once, and under each it holds exactly the series that have it |
| `BlockModel.BlockSeries` | src/block/block.cpp:51-206 | every series of a created block is found with its labels and chunk metadata |
| `BlockModel.BlockChunk` | src/block/block.cpp:51-206 | every chunk of a created block is read back under the reference in its metadata |
| `BlockModel.ContentSound` | src/block/block.cpp:126-181 | symbols are complete and posting lists hold 32-bit identifiers, so the index format can carry what creation writes, zero bytes included |
| `BlockModel.SymbolsMeaning` | src/block/block.cpp:126-137 | the symbols are the empty string and every name and value, once each and in byte order |
| `BlockModel.PairsInOrder` | src/block/block.cpp:158-181 | posting lists are written by name, and under one name by value, in byte order |
| `BlockModel.RangeCovers` | src/block/block.cpp:78-124 | the block's time range is the smallest that covers its chunks |
| `BlockMetas.CreatedMeta` | src/block/block.cpp:75-124 | the metadata of a created block: the tight range over all its chunks, zero where there is none, the numbers of series, chunks and decoded samples, level one and itself as its source |
| `BlockMetas.KeptMeaning` | src/block/block.cpp:88-92 | exactly the series that have a chunk are written, in the order given |
| `BlockModel.SelectedIs` | src/block/block.cpp:509-562 | for every matcher list and range, the bytes on disk answer with exactly the accepted series and overlapping chunks, in the order given |
| `BlockModel.SelectedMeetRange` | src/block/block.cpp:541-556 | whatever the files hold, every chunk that a query lists meets the queried range by its two times |
| `BlockModel.ReadMetasMeaning` | src/block/block.cpp:541-556 | the chunks read for a series are exactly those whose metadata meets the range, in order, with the data their references lead to |
| `BlockModel.QueriesAlike` | src/block/chunks.cpp:263-296 | segments that earlier queries loaded with a sound header change no answer |
| `HeadToBlock.AnswersAgreeIff` | src/block/block.cpp:348-392 | one query is answered alike by head and block exactly when both readings of the matchers agree on every series with a chunk in the range |
| `HeadToBlock.AlwaysAlikeIff` | src/block/block.cpp:348-392 | all queries are answered alike exactly when every series with a chunk has a label, no empty value, and for each of its labels every label that a zero byte in its lookup key could be taken to begin |
| `HeadToBlock.BlockAnswersAsHead` | src/block/block.cpp:348-392 | for such a store, same label sets, chunk bytes and time ranges in the same order |
| `SmallBlocks.AnsweredDifferently` | src/block/block.cpp:437 | for the series a = "b\0c" and the query a\0b = "c" the head finds nothing and its block finds the series |
| `SmallBlocks.NameAnsweredDifferently` | src/block/block.cpp:437 | the same for the series a\0b = "c" and the query a = "b\0c" |
| `SmallBlocks.OnlyBlockFinds` | src/block/block.cpp:437 | the same for every series of one label and every other reading of its lookup key |
| `SmallBlocks.BothReadingsAlike` | src/block/block.cpp:425-505 | series that have both of these labels are answered alike, whatever is asked |
| `SmallBlocks.SmallFits` | src/block/block.cpp:51-206 | a block of one small series fits the fields of its format |
| `BlockReaders.OpenBlock.Open` | src/block/block.cpp:28-49 | a block opens exactly when its index parses |
| `BlockReaders.OpenBlock.Select` | src/block/block.cpp:509-562 | the query loop over posting lists, entries and cached segments, whatever was queried before: only segments that earlier reads loaded go without a header check, and a query that succeeds loads only sound ones |
| `BlockReaders.QueryBlock` | src/block/block.cpp:509-562 | opening and querying is what the files answer |
| `BlockWriters.WriteChunks` | src/block/block.cpp:67-124 | chunk files, references and totals of all series that have a chunk |
| `BlockWriters.AddSymbols` | src/block/block.cpp:126-152 | every symbol gets its position as reference |
| `BlockWriters.AddAllSeries` | src/block/block.cpp:154-174 | series in order, each identifier collected under each label, empty values included |
| `BlockWriters.AddAllPostings` | src/block/block.cpp:176-181 | one list for each label, in label order, and the finished file |
| `BlockWriters.CreateFromSeries` | src/block/block.cpp:51-206 | the writing loops produce the block the value-level definition gives |
| `Compactors.InputsFromHead` | src/block/block.cpp:348-392 | the loop over live series and their chunks collects what a head hands over |
| `Compactors.CreateFromHead` | src/block/block.cpp:348-392 | flushing a head creates the block of its live series |
| `Compactors.CollectBlocks` | src/block/block.cpp:216-266 | all inputs are opened, with level and sources noted, and then their chunks collected by label set; any error ends it |
| `Compactors.CollectedIsLoaded` | src/block/block.cpp:216-265 | opening all inputs before reading any changes only which error is reported |
| `Compactors.MergeSeries` | src/block/block.cpp:276-329 | decoding, stable sorting, deduplicating and re-cutting one series; an error exactly when a chunk does not decode |
| `Compactors.MergeAll` | src/block/block.cpp:274-329 | every collected label set once, in whatever order the map gives them, or an error exactly when some chunk does not decode |
| `Compactors.Compact` | src/block/block.cpp:208-346 | the whole of compaction equals its value-level definition, errors included |
| `Compaction.CreatedLoads` | src/block/block.cpp:236-265 | what is read from a created block is what it was created from, without the series that have no label |
| `Compaction.RecutMeaning` | src/block/block.cpp:306-327 | re-appending ascending samples is never refused and re-cuts exactly them |
| `BlockMetas.OutputChunks` | src/block/block.cpp:306-335 | the chunks of an output series are the one way to cut its merged samples, each with its first and last time |
| `Compaction.FoundSamples` | src/block/block.cpp:268-331 | the output block holds under every label set exactly the merged samples |
| `Compaction.CompactionMeaning` | src/block/block.cpp:231-331 | the output under a label set is strictly ascending in time, gives each input time the value of its last occurrence in block, series and chunk order, and is empty exactly when the inputs were |
| `BlockMetas.CompactionKeepsLast` | src/block/block.cpp:277-304 | of all samples of one time under a label set, the compacted block gives the one of the last block, there of the last series, chunk and place |
| `BlockMetas.LastSampleWins` | src/block/block.cpp:277-304 | the same for the inputs as loaded, place by place |
| `Compaction.CompactionStages` | src/block/block.cpp:208-346 | compacting some inputs first and the result with others, before or behind them, gives the same samples as all at once; compacting again changes nothing |
| `Compaction.BlocksInStages` | src/block/block.cpp:208-346 | the same on the blocks themselves |
| `Compaction.StagedIsDirect` | src/block/block.cpp:208-346 | end to end: what is loaded from a block compacted from compact(X) and Y, on either side, has under every label set the samples of compacting all at once, and the same sources |
| `Compaction.SourcesInStages` | src/block/block.cpp:217-226 | the source set is the same in stages, and how the level differs |
| `BlockMetas.CompactedMeta` | src/block/block.cpp:217-226 | a compacted block is one level above its highest input, and its sources are those of all inputs, once each and in byte order |
| `BlockMetas.CompactedRange` | src/block/block.cpp:335-346 | its range and its numbers of series, chunks and samples are those of what it holds |
| `Compaction.HeadDecodable` | src/block/block.cpp:348-392 | what a head hands over always decodes |

## Left out

- BitReading.BitReader.ReadBits: where a refill brings too few bits, the error `Unspecified` stands for the undefined behaviour of the source.
- XorChunks.XorRead: the same for a window that is none.
- XorChunks.XORChunk.Appender: for bytes that some history of appends and resets produced and that read back as it says, or do not read at all; an appender on bytes from elsewhere is not modelled.
- WalRecords.SeriesRoundTrip: for strings and lists shorter than 2^64, as any in memory are.
- WalRecords.Decoder.ReadStr: lengths are unbounded integers; where offset plus a hostile length wraps around, the source goes on with an invalid string view, of which nothing can be said.
- WalRecords.DecodeSeriesRecord: lengths are unbounded integers, so the overflow of offset plus length on a hostile record is not modelled.
- ChunkFiles.ChunkReader.Read: likewise for a hostile length in a chunk file.
- IndexReaders.IndexReader.Open: likewise for hostile offsets and lengths in an index file.
- HeadStates.RunInvariant: for runs short enough that references and label lengths stay below 2^64, where the source's counter would wrap.
- HeadBlocks.HeadBlock.Append: label sets shorter than 2^64 bytes; nothing else is asked of the caller.
- HeadBlocks.HeadBlock.Select: every chunk of a head decodes, so the error return for one that does not is dead code and not part of the body.
- Compactors.InputsFromHead: the same.
- HeadToBlock.AnswersAgreeIff: for blocks whose sizes and identifiers fit the 32-bit fields of the format.
- HeadToBlock.AlwaysAlikeIff: the same.
- BlockModel.SelectedIs: the same.
- BlockWriters.CreateFromSeries: for inputs whose sizes fit the fields of the format; the source does not check them and would cut them off.
- Compactors.Compact: for outputs that fit the format. The order in which a hash map hands out label sets is left open: the result holds for each.
- Compactors.CreateFromHead: for heads whose sizes fit the fields of the format.
- Compaction.CompactionMeaning: for label sets with at least one label; a series without labels is in no posting list, so it is never found in a block (`Compaction.CreatedLoads`).
- BlockReaders.OpenBlock.Select: which sound segments a query leaves loaded is left open, as it changes no later answer (`BlockModel.QueriesAlike`).
- BlockReaders.OpenBlock.ReadEvery: for blocks no failed read has touched; compaction opens its inputs anew.
- Running out of memory, as where a hostile label count is reserved up front (src/wal/record.cpp:150).
- MemSeriesModel.MemSeries.Append: the second attempt after a full 16-bit count is shown unreachable and is not part of the body; `reset` is left out.
- Compactors.MergeSeries: the refusals of the throwaway series and its empty chunks are shown impossible and are not part of the body.
- IndexFormat.SparseIsLinear: for the symbol references of version 2. The reader's version 1 branches are in the model, but nothing in the repository writes such files.
- Library algorithms (stable sort, sort with unique, set intersection and difference, ordered maps) are functions with their meaning proved; how the library computes them is not modelled.
- Eight-byte loads by copy and byte swap are the big-endian value of the bytes.
- File descriptors, fsync, renaming, directory scans and write failures: files are byte sequences and writes succeed. A crash leaves every earlier log segment whole and a prefix of the last one.
- Block names and the JSON form of block metadata: a name is a parameter and the metadata a record.
- Compiling regular expressions and hashing labels: a predicate, and maps keyed on label sets.
- The querier, which joins answers of several blocks by label set: easy next to the rest, and its sort is not stable.
- `Block::query`, reading while appending, histogram, tombstone and other chunk formats that the repository specifies and does not implement.
