/**
 * The analysis stage: shows released in 1999 or later, their scores rounded into buckets,
 * buckets 4 to 9 kept, the mean vote count per bucket rounded, and the buckets listed by
 * decreasing mean.
 */
module Aggregator {
  import opened Seqs
  import opened Records
  import opened Rounding

  /** The first year of the "Golden Age" of television. */
  const GoldenAgeStart := 1999
  /** The buckets with enough rows to be meaningful. */
  const MinBucket := 4
  const MaxBucket := 9

  predicate SinceGoldenAge(x: Record) {
    x.releaseYear >= GoldenAgeStart
  }

  predicate IsShow(x: Record) {
    x.mediaType == "SHOW"
  }

  predicate ShowSinceGoldenAge(x: Record) {
    SinceGoldenAge(x) && IsShow(x)
  }

  /** `df[df['release_year'] >= 1999]`. */
  function AfterYear(rows: seq<Record>): (r: seq<Record>)
    ensures forall x :: x in r <==> x in rows && x.releaseYear >= GoldenAgeStart
  {
    Filter(rows, SinceGoldenAge)
  }

  /** `df_after_1999[df_after_1999['type'] == 'SHOW']`. */
  function OnlyShows(rows: seq<Record>): (r: seq<Record>)
    ensures forall x :: x in r <==> x in rows && x.mediaType == "SHOW"
  {
    Filter(rows, IsShow)
  }

  /** `df_only_shows` is exactly the rows, in order, that are shows released in 1999 or later. */
  lemma ShowsSinceGoldenAge(rows: seq<Record>)
    ensures OnlyShows(AfterYear(rows)) == Filter(rows, ShowSinceGoldenAge)
    ensures IsSubsequence(OnlyShows(AfterYear(rows)), rows)
    ensures forall x :: multiset(OnlyShows(AfterYear(rows)))[x] ==
                        (if ShowSinceGoldenAge(x) then multiset(rows)[x] else 0)
  {
    FilterFilter(rows, SinceGoldenAge, IsShow, ShowSinceGoldenAge);
    FilterIsSubsequence(rows, ShowSinceGoldenAge);
    FilterCounts(rows, ShowSinceGoldenAge);
  }

  /** `round(score)` on a score held in tenths. */
  function Bucket(tenths: int): (b: int)
    ensures 10 * b - 5 <= tenths <= 10 * b + 5
    ensures tenths == 10 * b - 5 || tenths == 10 * b + 5 ==> b % 2 == 0
  {
    RoundHalfEven(tenths, 10)
  }

  /** A row with the `imdb_score_rounded` column added. */
  datatype BucketedRow = BucketedRow(row: Record, bucket: int)

  predicate AllScored(rows: seq<Record>) {
    forall k :: 0 <= k < |rows| ==> rows[k].score.Some?
  }

  /** `df_only_shows['imdb_score_rounded'] = df_only_shows['imdb_score'].agg(lambda x: round(x))`. */
  function AddRoundedScore(rows: seq<Record>): (r: seq<BucketedRow>)
    requires AllScored(rows)
    ensures |r| == |rows|
    ensures forall k :: 0 <= k < |r| ==>
      r[k].row == rows[k] && IsRoundHalfEven(rows[k].score.value, 10, r[k].bucket)
  {
    seq(|rows|, k requires 0 <= k < |rows| => BucketedRow(rows[k], Bucket(rows[k].score.value)))
  }

  predicate InBucketRange(x: BucketedRow) {
    MinBucket <= x.bucket <= MaxBucket
  }

  /** `df_only_shows[(rounded >= 4) & (rounded <= 9)]`. */
  function InRange(rows: seq<BucketedRow>): (r: seq<BucketedRow>)
    ensures forall x :: x in r <==> x in rows && MinBucket <= x.bucket <= MaxBucket
    ensures forall x :: multiset(r)[x] == if MinBucket <= x.bucket <= MaxBucket then multiset(rows)[x] else 0
  {
    FilterCounts(rows, InBucketRange);
    Filter(rows, InBucketRange)
  }

  /** `df_range` holds exactly the rows of `df_only_shows`, in order, whose bucket lies in [4, 9]. */
  lemma RangeRows(rows: seq<Record>)
    requires AllScored(rows)
    ensures forall x :: x in InRange(AddRoundedScore(rows)) <==>
      x.row in rows && x.row.score.Some? && x.bucket == Bucket(x.row.score.value) &&
      MinBucket <= x.bucket <= MaxBucket
    ensures IsSubsequence(InRange(AddRoundedScore(rows)), AddRoundedScore(rows))
    ensures forall y: Record :: y.score.Some? ==>
      multiset(InRange(AddRoundedScore(rows)))[BucketedRow(y, Bucket(y.score.value))] ==
        if MinBucket <= Bucket(y.score.value) <= MaxBucket then multiset(rows)[y] else 0
  {
    RangeRowCounts(rows);
    var b := AddRoundedScore(rows);
    forall x ensures x in b <==> x.row in rows && x.row.score.Some? && x.bucket == Bucket(x.row.score.value) {
      if x.row in rows && x.row.score.Some? && x.bucket == Bucket(x.row.score.value) {
        var k :| 0 <= k < |rows| && rows[k] == x.row;
        assert b[k] == x;
      }
    }
    FilterIsSubsequence(b, InBucketRange);
  }

  lemma RangeRowCounts(rows: seq<Record>)
    requires AllScored(rows)
    ensures forall y: Record :: y.score.Some? ==>
      multiset(InRange(AddRoundedScore(rows)))[BucketedRow(y, Bucket(y.score.value))] ==
        if MinBucket <= Bucket(y.score.value) <= MaxBucket then multiset(rows)[y] else 0
  {
    forall y: Record | y.score.Some?
      ensures multiset(InRange(AddRoundedScore(rows)))[BucketedRow(y, Bucket(y.score.value))] ==
        if MinBucket <= Bucket(y.score.value) <= MaxBucket then multiset(rows)[y] else 0
    {
      AddRoundedScoreCount(rows, y);
    }
  }

  /** Pairing each row with its bucket keeps the number of copies of every row. */
  lemma AddRoundedScoreCount(rows: seq<Record>, y: Record)
    requires AllScored(rows) && y.score.Some?
    ensures multiset(AddRoundedScore(rows))[BucketedRow(y, Bucket(y.score.value))] == multiset(rows)[y]
  {
    var f := (x: Record) => BucketedRow(x, if x.score.Some? then Bucket(x.score.value) else 0);
    MapCount(rows, AddRoundedScore(rows), f, y);
  }

  predicate StrictlyIncreasing(keys: seq<int>) {
    forall i, j :: 0 <= i < j < |keys| ==> keys[i] < keys[j]
  }

  /** Adds `b` to an ascending list of distinct keys. */
  function InsertKey(keys: seq<int>, b: int): (r: seq<int>)
    requires StrictlyIncreasing(keys)
    ensures StrictlyIncreasing(r)
    ensures forall x :: x in r <==> x in keys || x == b
    ensures r != [] && (r[0] == b || (keys != [] && r[0] == keys[0]))
  {
    if keys == [] then [b]
    else if b < keys[0] then [b] + keys
    else if b == keys[0] then keys
    else
      var rest := InsertKey(keys[1..], b);
      assert keys[1..] == [] || keys[0] < keys[1..][0];
      [keys[0]] + rest
  }

  /** The buckets that occur in the rows. */
  function BucketSet(rows: seq<BucketedRow>): set<int> {
    set x | x in rows :: x.bucket
  }

  /** The group keys of `groupby('imdb_score_rounded')`: each bucket present once, ascending. */
  function GroupKeys(rows: seq<BucketedRow>): (keys: seq<int>)
    ensures StrictlyIncreasing(keys)
    ensures forall b :: b in keys <==> b in BucketSet(rows)
  {
    if rows == [] then []
    else
      var rest := GroupKeys(rows[1..]);
      assert BucketSet(rows) == {rows[0].bucket} + BucketSet(rows[1..]) by {
        assert forall x :: x in rows <==> x == rows[0] || x in rows[1..];
      }
      InsertKey(rest, rows[0].bucket)
  }

  /** The rows of one bucket. */
  function Group(rows: seq<BucketedRow>, b: int): (g: seq<BucketedRow>)
    ensures forall x :: x in g <==> x in rows && x.bucket == b
    ensures forall x :: multiset(g)[x] == if x.bucket == b then multiset(rows)[x] else 0
  {
    FilterCounts(rows, (x: BucketedRow) => x.bucket == b);
    Filter(rows, (x: BucketedRow) => x.bucket == b)
  }

  predicate AllVoted(rows: seq<BucketedRow>) {
    forall x :: x in rows ==> x.row.votes.Some?
  }

  /** Total vote count of the rows. */
  function VoteSum(rows: seq<BucketedRow>): int
    requires AllVoted(rows)
  {
    if rows == [] then 0
    else
      assert forall x :: x in rows[1..] ==> x in rows;
      rows[0].row.votes.value + VoteSum(rows[1..])
  }

  /** The vote total of two row lists laid end to end is the sum of their totals. */
  lemma {:induction false} VoteSumAppend(a: seq<BucketedRow>, b: seq<BucketedRow>)
    requires AllVoted(a) && AllVoted(b)
    ensures AllVoted(a + b) && VoteSum(a + b) == VoteSum(a) + VoteSum(b)
    decreases |a|
  {
    if a == [] {
      assert a + b == b;
    } else {
      assert AllVoted(a[1..]) by {
        assert forall x :: x in a[1..] ==> x in a;
      }
      VoteSumAppend(a[1..], b);
      assert (a + b)[0] == a[0] && (a + b)[1..] == a[1..] + b;
    }
  }

  /** One row of `groupby(...)['imdb_votes'].agg(['mean'])`, the mean kept exact as `voteSum / count`. */
  datatype GroupMean = GroupMean(bucket: int, voteSum: int, count: nat)

  /**
   * The grouped table: one entry per bucket that occurs in the rows (a bucket without rows
   * is absent), ascending by bucket, with the exact sum and number of that bucket's votes.
   */
  function GroupMeans(rows: seq<BucketedRow>): (r: seq<GroupMean>)
    requires AllVoted(rows)
    ensures forall i, j :: 0 <= i < j < |r| ==> r[i].bucket < r[j].bucket
    ensures |r| == |GroupKeys(rows)|
    ensures forall i :: 0 <= i < |r| ==> r[i].bucket == GroupKeys(rows)[i]
    ensures forall i :: 0 <= i < |r| ==>
      && r[i].count == |Group(rows, r[i].bucket)| > 0
      && r[i].voteSum == VoteSum(Group(rows, r[i].bucket))
  {
    var keys := GroupKeys(rows);
    forall i | 0 <= i < |keys| ensures |Group(rows, keys[i])| > 0 {
      assert keys[i] in keys;
      var x :| x in rows && x.bucket == keys[i];
      assert x in Group(rows, keys[i]);
    }
    seq(|keys|, i requires 0 <= i < |keys| =>
      GroupMean(keys[i], VoteSum(Group(rows, keys[i])), |Group(rows, keys[i])|))
  }

  /** The buckets that have an entry in the grouped table. */
  function GroupBuckets(groups: seq<GroupMean>): set<int> {
    set g | g in groups :: g.bucket
  }

  /** A bucket has an entry in the grouped table exactly when some row falls in it. */
  lemma GroupMeansCoverage(rows: seq<BucketedRow>)
    requires AllVoted(rows)
    ensures GroupBuckets(GroupMeans(rows)) == BucketSet(rows)
  {
    var r := GroupMeans(rows);
    var keys := GroupKeys(rows);
    forall b | b in BucketSet(rows) ensures b in GroupBuckets(r) {
      assert b in keys;
      var i :| 0 <= i < |keys| && keys[i] == b;
      assert r[i] in r;
    }
    forall b | b in GroupBuckets(r) ensures b in BucketSet(rows) {
      var g :| g in r && g.bucket == b;
      var i :| 0 <= i < |r| && r[i] == g;
      assert keys[i] in keys;
    }
  }

  /** A row of the final table: the bucket (renamed `imdb score`) and its rounded mean. */
  datatype ScoreMean = ScoreMean(score: int, mean: int)

  predicate Counted(groups: seq<GroupMean>) {
    forall i :: 0 <= i < |groups| ==> groups[i].count > 0
  }

  /** `df_grouped_scores['mean'].round()`, half to even on the exact mean. */
  function RoundMeans(groups: seq<GroupMean>): (r: seq<ScoreMean>)
    requires Counted(groups)
    ensures |r| == |groups|
    ensures forall i :: 0 <= i < |r| ==>
      r[i].score == groups[i].bucket && IsRoundHalfEven(groups[i].voteSum, groups[i].count, r[i].mean)
  {
    seq(|groups|, i requires 0 <= i < |groups| =>
      ScoreMean(groups[i].bucket, RoundHalfEven(groups[i].voteSum, groups[i].count)))
  }

  predicate NonIncreasingMeans(s: seq<ScoreMean>) {
    forall i, j :: 0 <= i < j < |s| ==> s[i].mean >= s[j].mean
  }

  function InsertByMean(x: ScoreMean, s: seq<ScoreMean>): (r: seq<ScoreMean>)
    requires NonIncreasingMeans(s)
    ensures NonIncreasingMeans(r)
    ensures multiset(r) == multiset(s) + multiset{x}
    ensures r != [] && (r[0] == x || (s != [] && r[0] == s[0]))
  {
    if s == [] || x.mean >= s[0].mean then
      ConsNonIncreasing(x, s);
      [x] + s
    else
      TailNonIncreasing(s);
      var rest := InsertByMean(x, s[1..]);
      assert s == [s[0]] + s[1..];
      ConsNonIncreasing(s[0], rest);
      assert multiset([s[0]] + rest) == multiset{s[0]} + multiset(rest);
      assert multiset(s) == multiset{s[0]} + multiset(s[1..]);
      [s[0]] + rest
  }

  lemma ConsNonIncreasing(h: ScoreMean, t: seq<ScoreMean>)
    requires NonIncreasingMeans(t) && (t == [] || h.mean >= t[0].mean)
    ensures NonIncreasingMeans([h] + t)
  {
    var r := [h] + t;
    forall i, j | 0 <= i < j < |r| ensures r[i].mean >= r[j].mean {
      assert r[j] == t[j - 1];
      if i > 0 {
        assert r[i] == t[i - 1];
      } else if j > 1 {
        assert t[0].mean >= t[j - 1].mean;
      }
    }
  }

  lemma TailNonIncreasing(s: seq<ScoreMean>)
    requires NonIncreasingMeans(s) && s != []
    ensures NonIncreasingMeans(s[1..])
  {
    forall i, j | 0 <= i < j < |s| - 1 ensures s[1..][i].mean >= s[1..][j].mean {
      assert s[1..][i] == s[i + 1] && s[1..][j] == s[j + 1];
    }
  }

  /**
   * `sort_values(by='mean', ascending=False)`: a rearrangement with non-increasing means.
   * The order among equal means is not fixed by pandas' default sort, and is not specified here.
   */
  function SortByMeanDesc(s: seq<ScoreMean>): (r: seq<ScoreMean>)
    ensures NonIncreasingMeans(r)
    ensures multiset(r) == multiset(s)
  {
    if s == [] then []
    else
      assert s == [s[0]] + s[1..];
      InsertByMean(s[0], SortByMeanDesc(s[1..]))
  }

  /** The rows that reach the grouping: `df_range`. */
  function RangeOf(rows: seq<Record>): (r: seq<BucketedRow>)
    requires AllComplete(rows)
    ensures AllVoted(r)
    ensures forall x :: x in r ==> MinBucket <= x.bucket <= MaxBucket
  {
    var shows := OnlyShows(AfterYear(rows));
    ShowsComplete(rows);
    var r := InRange(AddRoundedScore(shows));
    assert forall x :: x in r ==> x.row in shows;
    r
  }

  lemma ShowsComplete(rows: seq<Record>)
    requires AllComplete(rows)
    ensures AllScored(OnlyShows(AfterYear(rows)))
    ensures forall x :: x in OnlyShows(AfterYear(rows)) ==> x.votes.Some?
  {
    var shows := OnlyShows(AfterYear(rows));
    forall k | 0 <= k < |shows| ensures shows[k].score.Some? && shows[k].votes.Some? {
      assert shows[k] in shows;
    }
  }

  /** The whole analysis on the cleaned table: the final, sorted (bucket, rounded mean) table. */
  function Aggregate(rows: seq<Record>): (r: seq<ScoreMean>)
    requires AllComplete(rows)
    ensures NonIncreasingMeans(r)
    ensures forall i :: 0 <= i < |r| ==> MinBucket <= r[i].score <= MaxBucket
  {
    SortedTableFits(RangeOf(rows));
    SortedTable(RangeOf(rows))
  }

  /** The buckets, within [4, 9], of the scores of the shows released in 1999 or later. */
  function ShowBuckets(rows: seq<Record>): set<int>
    requires AllComplete(rows)
  {
    set k | 0 <= k < |rows| && ShowSinceGoldenAge(rows[k]) &&
            MinBucket <= Bucket(rows[k].score.value) <= MaxBucket :: Bucket(rows[k].score.value)
  }

  /** The buckets present in `df_range` are those of the cleaned table's qualifying rows. */
  lemma RangeBuckets(rows: seq<Record>)
    requires AllComplete(rows)
    ensures BucketSet(RangeOf(rows)) == ShowBuckets(rows)
  {
    forall b | b in BucketSet(RangeOf(rows)) ensures b in ShowBuckets(rows) {
      RangeBucketShown(rows, b);
    }
    forall b | b in ShowBuckets(rows) ensures b in BucketSet(RangeOf(rows)) {
      ShownBucketInRange(rows, b);
    }
  }

  lemma RangeBucketShown(rows: seq<Record>, b: int)
    requires AllComplete(rows) && b in BucketSet(RangeOf(rows))
    ensures b in ShowBuckets(rows)
  {
    var shows := OnlyShows(AfterYear(rows));
    ShowsComplete(rows);
    var scored := AddRoundedScore(shows);
    var range := RangeOf(rows);
    assert range == InRange(scored);
    var y :| y in range && y.bucket == b;
    var j :| 0 <= j < |scored| && scored[j] == y;
    assert shows[j] in shows;
    var k :| 0 <= k < |rows| && rows[k] == shows[j];
    assert ShowSinceGoldenAge(rows[k]);
  }

  lemma ShownBucketInRange(rows: seq<Record>, b: int)
    requires AllComplete(rows) && b in ShowBuckets(rows)
    ensures b in BucketSet(RangeOf(rows))
  {
    var shows := OnlyShows(AfterYear(rows));
    ShowsComplete(rows);
    var scored := AddRoundedScore(shows);
    var range := RangeOf(rows);
    assert range == InRange(scored);
    var k :| 0 <= k < |rows| && ShowSinceGoldenAge(rows[k]) &&
             MinBucket <= Bucket(rows[k].score.value) <= MaxBucket && Bucket(rows[k].score.value) == b;
    assert rows[k] in rows;
    assert rows[k] in shows;
    var j :| 0 <= j < |shows| && shows[j] == rows[k];
    assert scored[j] in scored;
    assert scored[j] in range;
  }

  /** A row of the final table that is right for the rows `range` it was computed from. */
  predicate EntryFits(range: seq<BucketedRow>, e: ScoreMean)
    requires AllVoted(range)
  {
    var g := Group(range, e.score);
    && MinBucket <= e.score <= MaxBucket
    && |g| > 0
    && e.mean == RoundHalfEven(VoteSum(g), |g|)
  }

  lemma RoundedEntriesFit(range: seq<BucketedRow>)
    requires AllVoted(range)
    requires forall x :: x in range ==> MinBucket <= x.bucket <= MaxBucket
    ensures var rm := RoundMeans(GroupMeans(range));
      forall i :: 0 <= i < |rm| ==> EntryFits(range, rm[i])
  {
    var groups := GroupMeans(range);
    var rm := RoundMeans(groups);
    GroupMeansCoverage(range);
    forall i | 0 <= i < |rm| ensures EntryFits(range, rm[i]) {
      RoundHalfEvenUnique(groups[i].voteSum, groups[i].count, rm[i].mean);
      var x :| x in range && x.bucket == groups[i].bucket;
    }
  }

  lemma RoundedEntriesIncreasing(range: seq<BucketedRow>)
    requires AllVoted(range)
    ensures var rm := RoundMeans(GroupMeans(range));
      forall i, j :: 0 <= i < j < |rm| ==> rm[i].score < rm[j].score
  {
  }

  /** The buckets listed in a (bucket, mean) table. */
  function ScoreSet(table: seq<ScoreMean>): set<int> {
    set e | e in table :: e.score
  }

  lemma RoundedEntriesCoverage(range: seq<BucketedRow>)
    requires AllVoted(range)
    ensures ScoreSet(RoundMeans(GroupMeans(range))) == BucketSet(range)
  {
    var groups := GroupMeans(range);
    var rm := RoundMeans(groups);
    GroupMeansCoverage(range);
    forall b | b in GroupBuckets(groups) ensures b in ScoreSet(rm) {
      var g :| g in groups && g.bucket == b;
      var i :| 0 <= i < |groups| && groups[i] == g;
      assert rm[i] in rm;
    }
    forall b | b in ScoreSet(rm) ensures b in GroupBuckets(groups) {
      var e :| e in rm && e.score == b;
      var i :| 0 <= i < |rm| && rm[i] == e;
      assert groups[i] in groups;
    }
  }

  /** The grouped, rounded table in decreasing order of mean, with as many rows as occurring buckets. */
  function SortedTable(range: seq<BucketedRow>): (r: seq<ScoreMean>)
    requires AllVoted(range)
    ensures NonIncreasingMeans(r)
    ensures |r| == |GroupKeys(range)|
  {
    var rm := RoundMeans(GroupMeans(range));
    var r := SortByMeanDesc(rm);
    assert |r| == |multiset(r)| == |multiset(rm)| == |rm|;
    r
  }

  /** Every row of the final table is right for its bucket. */
  lemma SortedTableFits(range: seq<BucketedRow>)
    requires AllVoted(range)
    requires forall x :: x in range ==> MinBucket <= x.bucket <= MaxBucket
    ensures var out := SortedTable(range);
      forall i :: 0 <= i < |out| ==> EntryFits(range, out[i])
  {
    var rm := RoundMeans(GroupMeans(range));
    RoundedEntriesFit(range);
    PermutationPreserves(rm, SortByMeanDesc(rm), (e: ScoreMean) => EntryFits(range, e));
  }

  /** The final table has an entry for a bucket exactly when some row of `range` falls in it. */
  lemma SortedTableCoverage(range: seq<BucketedRow>)
    requires AllVoted(range)
    ensures ScoreSet(SortedTable(range)) == BucketSet(range)
  {
    var rm := RoundMeans(GroupMeans(range));
    var out := SortByMeanDesc(rm);
    RoundedEntriesCoverage(range);
    assert forall e :: e in out <==> e in rm by {
      assert forall e :: e in out <==> e in multiset(out);
      assert forall e :: e in rm <==> e in multiset(rm);
    }
  }

  /** No bucket appears twice in the final table. */
  lemma SortedTableDistinctScores(range: seq<BucketedRow>)
    requires AllVoted(range)
    requires forall x :: x in range ==> MinBucket <= x.bucket <= MaxBucket
    ensures var out := SortedTable(range);
      forall i, j :: 0 <= i < j < |out| ==> out[i].score != out[j].score
  {
    var rm := RoundMeans(GroupMeans(range));
    RoundedEntriesIncreasing(range);
    PermutationKeepsDistinctKeys(rm, SortByMeanDesc(rm), (e: ScoreMean) => e.score);
  }

  /**
   * The shape of the result: means non-increasing, every bucket in [4, 9] and listed once,
   * the listed buckets exactly those with rows in `df_range` (a bucket without rows is
   * absent), and each mean the half-to-even rounding of that bucket's vote total over its
   * row count.
   */
  lemma AggregateShape(rows: seq<Record>)
    requires AllComplete(rows)
    ensures var out := Aggregate(rows); var range := RangeOf(rows);
      && NonIncreasingMeans(out)
      && (forall i :: 0 <= i < |out| ==> EntryFits(range, out[i]))
      && (forall i, j :: 0 <= i < j < |out| ==> out[i].score != out[j].score)
      && ScoreSet(out) == BucketSet(range)
      && ScoreSet(out) == ShowBuckets(rows)
  {
    var range := RangeOf(rows);
    RangeBuckets(rows);
    assert Aggregate(rows) == SortedTable(range);
    SortedTableFits(range);
    SortedTableCoverage(range);
    SortedTableDistinctScores(range);
  }
}
