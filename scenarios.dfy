/** Small tables worked through the whole pipeline. */
module Scenarios {
  import opened Wrappers
  import opened Seqs
  import opened Records
  import opened Cleaner
  import opened Aggregator
  import opened Rounding

  function TvShow(): Record {
    Record("Some Show", "Lead", "ACTOR", Some("Some Show"), "tv show", 2005, "['drama']", Some(82), Some(50000))
  }

  /** A "tv show" from 2005 scored 8.2 is cleaned to "SHOW" and alone makes up bucket 8. */
  lemma TvShowScenario()
    ensures Cleaned([TvShow()]) == [TvShow().(mediaType := "SHOW")]
    ensures Aggregate(Cleaned([TvShow()])) == [ScoreMean(8, 50000)]
  {
    TvShowCleaned();
    TvShowAggregated();
  }

  lemma TvShowCleaned()
    ensures Cleaned([TvShow()]) == [TvShow().(mediaType := "SHOW")]
  {
    KeptByBothDrops([TvShow()]);
    ShowSpellingsAreNotMovies();
    ShowCanonicalization([TvShow()]);
  }

  lemma TvShowAggregated()
    ensures AllComplete([TvShow().(mediaType := "SHOW")])
    ensures Aggregate([TvShow().(mediaType := "SHOW")]) == [ScoreMean(8, 50000)]
  {
    var y := TvShow().(mediaType := "SHOW");
    assert OnlyShows(AfterYear([y])) == [y];
    assert Bucket(82) == 8;
    var range := RangeOf([y]);
    assert range == [BucketedRow(y, 8)];
    assert GroupKeys(range) == [8];
    assert Group(range, 8) == range;
    assert VoteSum(range) == 50000;
    assert GroupMeans(range) == [GroupMean(8, 50000, 1)];
    assert RoundHalfEven(50000, 1) == 50000;
    assert RoundMeans(GroupMeans(range)) == [ScoreMean(8, 50000)];
    assert SortByMeanDesc([ScoreMean(8, 50000)]) == [ScoreMean(8, 50000)] by {
      assert [ScoreMean(8, 50000)][1..] == [];
    }
    assert Aggregate([y]) == SortedTable(range);
  }

  /** "tv show" has no piece "movie": none of its three 5-letter windows starts with 'm'. */
  lemma NoMovieIn()
    ensures !Contains("tv show", "movie")
  {
    var s := "tv show";
    assert !Contains(s[3..], "movie");
    assert s[2..][1..] == s[3..] && s[2..][..5][0] != 'm';
    assert !Contains(s[2..], "movie");
    assert s[1..][1..] == s[2..] && s[1..][..5][0] != 'm';
    assert !Contains(s[1..], "movie");
    assert s[..5][0] != 'm';
  }

  /** Two identical rows: exactly one survives duplicate elimination. */
  lemma DuplicateScenario(x: Record)
    ensures FirstOccurrences([x, x]) == [x]
  {
    var s := [x, x];
    assert s[..|s| - 1] == [x] && s[|s| - 1] in [x];
    assert FirstOccurrences([x]) == [x] by {
      assert [x][..0] == [];
    }
  }

  /** A row without a score reaches neither the cleaned table nor the result. */
  lemma MissingScoreScenario(x: Record)
    requires x.score.None?
    ensures Cleaned([x]) == [] && Aggregate(Cleaned([x])) == []
  {
  }

  /** A show scored 9.8 rounds to bucket 10, which lies outside [4, 9] and is dropped. */
  lemma OutlierScenario()
    ensures Aggregate([TvShow().(mediaType := "SHOW", score := Some(98))]) == []
  {
  }

  /** `TvShow` with another `type` value. */
  function Typed(t: string): Record {
    TvShow().(mediaType := t)
  }

  /** "shows" has no piece "movie": the one 5-letter window starts with 's'. */
  lemma NoMovieInShows()
    ensures !Contains("shows", "movie")
  {
    var s := "shows";
    assert !Contains(s[1..], "movie");
    assert s[..5][0] != 'm';
  }

  /** A table whose rows are complete and pairwise distinct comes out of both drops unchanged. */
  lemma KeptByBothDrops(rows: seq<Record>)
    requires AllComplete(rows) && Distinct(rows)
    ensures FirstOccurrences(DropMissing(rows)) == rows
  {
    FilterAll(rows, HasScoreAndVotes);
    FirstOccurrencesOfDistinct(rows);
  }

  /**
   * Duplicates are dropped before the `type` rewrite, so two rows that differ only in the
   * spelling of "show" both survive and are equal afterwards.
   */
  lemma ImplicitDuplicatesScenario()
    ensures Cleaned([Typed("tv show"), Typed("shows")]) == [Typed("SHOW"), Typed("SHOW")]
  {
    var a, b := Typed("tv show"), Typed("shows");
    var rows := [a, b];
    assert a != b by {
      assert |a.mediaType| != |b.mediaType|;
    }
    KeptByBothDrops(rows);
    ShowSpellingsAreNotMovies();
    ShowCanonicalization(rows);
  }

  lemma ShowSpellingsAreNotMovies()
    ensures !MentionsMovie("tv show") && !MentionsMovie("shows")
  {
    assert Labels.ToLower("tv show") == "tv show";
    NoMovieIn();
    assert Labels.ToLower("shows") == "shows";
    NoMovieInShows();
  }

  lemma LowerMovie()
    ensures Labels.ToLower("MOVIE") == "movie"
  {
    var l := Labels.ToLower("MOVIE");
    assert l[0] as int == 'M' as int + 32;
    assert l[1] as int == 'O' as int + 32;
    assert l[2] as int == 'V' as int + 32;
    assert l[3] as int == 'I' as int + 32;
    assert l[4] as int == 'E' as int + 32;
  }

  /** A type spelled "MOVIE" mentions "movie" once lowered, so the rewrite leaves it as it is. */
  lemma UpperMovieScenario()
    ensures MentionsMovie("MOVIE")
    ensures Cleaned([Typed("MOVIE")]) == [Typed("MOVIE")]
  {
    LowerMovie();
    ContainsAt("movie", "movie", 0);
    var x := Typed("MOVIE");
    KeptByBothDrops([x]);
    ShowCanonicalization([x]);
  }

  /** Each copy of a repeated row counts toward its group's size and vote total. */
  lemma RepeatedRowsCount(x: BucketedRow)
    requires x.row.votes.Some?
    ensures |Group([x, x], x.bucket)| == 2
    ensures VoteSum(Group([x, x], x.bucket)) == 2 * x.row.votes.value
  {
    var g := Group([x, x], x.bucket);
    assert multiset([x, x])[x] == 2;
    assert multiset(g)[x] == 2;
    forall y | y != x ensures multiset(g)[y] == 0 {
      assert multiset([x, x])[y] == 0;
    }
    assert multiset(g) == multiset{x, x};
    assert |g| == |multiset(g)| == 2;
    assert g[0] in multiset(g) && g[1] in multiset(g);
    assert g == [x, x];
    assert VoteSum([x]) == x.row.votes.value by {
      assert [x][1..] == [];
    }
    assert [x, x][1..] == [x];
    assert VoteSum([x, x]) == x.row.votes.value + VoteSum([x]);
  }
}
