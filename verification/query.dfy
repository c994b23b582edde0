/** What a query over a time range returns, from memory or from disk. */
module Queries {
  import opened Words
  import opened LabelSets
  import opened XorCode
  import opened MemSeriesModel

  /** Time range of a chunk and, on disk, where it is. */
  datatype ChunkMeta = ChunkMeta(minTime: i64, maxTime: i64, ref: u64)

  datatype QueryResult = QueryResult(labels: Labels, chunks: seq<seq<byte>>, metas: seq<ChunkMeta>)

  /** Both ends of both ranges belong to them. */
  predicate Overlaps(minTime: i64, maxTime: i64, mint: i64, maxt: i64) {
    minTime <= maxt && maxTime >= mint
  }

  /** The same answer but for where the chunks are. */
  predicate SameAnswer(a: QueryResult, b: QueryResult) {
    && a.labels == b.labels && a.chunks == b.chunks && |a.metas| == |b.metas|
    && forall i :: 0 <= i < |a.metas| ==>
         a.metas[i].minTime == b.metas[i].minTime && a.metas[i].maxTime == b.metas[i].maxTime
  }

  predicate SameAnswers(a: seq<QueryResult>, b: seq<QueryResult>) {
    |a| == |b| && forall i :: 0 <= i < |a| ==> SameAnswer(a[i], b[i])
  }
}
