/**
 * One row of the movies-and-shows table, after the column labels are normalised.
 * The rating is kept as an integer number of tenths: the table's scores carry one decimal,
 * so 8.2 is 82 and every comparison and rounding on it is exact.
 */
module Records {
  import opened Wrappers

  datatype Record = Record(
    name: string,             // actor's or director's name
    character: string,        // character played
    role: string,             // ACTOR or DIRECTOR
    title: Option<string>,    // may be missing; never cleaned
    mediaType: string,        // the `type` column: movie or show, in several spellings
    releaseYear: int,
    genres: string,
    score: Option<int>,       // imdb_score in tenths; may be missing
    votes: Option<int>        // imdb_votes; may be missing
  )

  /** Both analysed numbers are present. */
  predicate HasScoreAndVotes(r: Record) {
    r.score.Some? && r.votes.Some?
  }

  predicate AllComplete(rows: seq<Record>) {
    forall k :: 0 <= k < |rows| ==> HasScoreAndVotes(rows[k])
  }
}
