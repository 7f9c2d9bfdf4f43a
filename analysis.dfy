/**
 * The notebook's data path from the loaded table to the final result: the cleaning cells,
 * then the analysis cells, each stage handed the table the previous one produced.
 */
module Analysis {
  import opened Records
  import opened Cleaner
  import opened Aggregator

  /**
   * The result holds, for each bucket in [4, 9] that some cleaned show from 1999 on falls in,
   * exactly one row with that bucket's rounded mean vote count, ordered by non-increasing mean.
   */
  method Analyse(rows: seq<Record>) returns (table: seq<ScoreMean>)
    ensures AllComplete(Cleaned(rows)) && table == Aggregate(Cleaned(rows))
    ensures NonIncreasingMeans(table)
    ensures forall i :: 0 <= i < |table| ==> MinBucket <= table[i].score <= MaxBucket
    ensures forall i, j :: 0 <= i < j < |table| ==> table[i].score != table[j].score
    ensures ScoreSet(table) == ShowBuckets(Cleaned(rows))
  {
    var clean := CleanTable(rows);
    table := Aggregate(clean);
    AggregateShape(clean);
  }
}
