/**
 * The cleaning stage: drop rows missing a score or a vote count, drop exact duplicate rows
 * keeping the first, and rewrite every spelling of "show" in the `type` column to "SHOW".
 */
module Cleaner {
  import opened Seqs
  import opened Records
  import Labels

  /** `df.dropna(subset = ['imdb_votes', 'imdb_score'])`. A missing title does not matter. */
  function DropMissing(rows: seq<Record>): (r: seq<Record>)
    ensures forall x :: x in r <==> x in rows && HasScoreAndVotes(x)
    ensures forall k :: 0 <= k < |r| ==> r[k].score.Some? && r[k].votes.Some?
  {
    var r := Filter(rows, HasScoreAndVotes);
    assert forall k :: 0 <= k < |r| ==> r[k] in r;
    r
  }

  /** The null drop keeps the order of the rows it keeps, and each as often as it occurred. */
  lemma DropMissingKeepsOrder(rows: seq<Record>)
    ensures IsSubsequence(DropMissing(rows), rows)
    ensures forall x :: HasScoreAndVotes(x) ==> multiset(DropMissing(rows))[x] == multiset(rows)[x]
    ensures forall x :: !HasScoreAndVotes(x) ==> x !in DropMissing(rows)
  {
    FilterIsSubsequence(rows, HasScoreAndVotes);
    FilterCounts(rows, HasScoreAndVotes);
  }

  /**
   * `df.drop_duplicates()`: one pass over the rows with the set of rows seen so far; a row
   * is kept when it has not been seen.
   */
  method DropDuplicates(rows: seq<Record>) returns (r: seq<Record>)
    ensures r == FirstOccurrences(rows)
    ensures Distinct(r)
    ensures forall x :: x in r <==> x in rows
  {
    var seen: set<Record> := {};
    r := [];
    for i := 0 to |rows|
      invariant seen == set x | x in rows[..i]
      invariant r == FirstOccurrences(rows[..i])
    {
      assert rows[..i + 1][..i] == rows[..i];
      assert rows[..i + 1][i] == rows[i];
      if rows[i] !in seen {
        r := r + [rows[i]];
        seen := seen + {rows[i]};
      }
      assert rows[..i + 1] == rows[..i] + [rows[i]];
    }
    assert rows[..|rows|] == rows;
    FirstOccurrencesDistinct(rows);
    FirstOccurrencesMembers(rows);
  }

  /** What the cell at line 244 counts: no duplicate rows remain, and a second pass changes nothing. */
  lemma DropDuplicatesLeavesNone(rows: seq<Record>)
    ensures CountDuplicated(FirstOccurrences(rows)) == 0
    ensures FirstOccurrences(FirstOccurrences(rows)) == FirstOccurrences(rows)
    ensures CountDuplicated(rows) + |FirstOccurrences(rows)| == |rows|
  {
    FirstOccurrencesDistinct(rows);
    CountDuplicatedZero(FirstOccurrences(rows));
    FirstOccurrencesIdempotent(rows);
    CountDuplicatedComplement(rows);
  }

  /** `pattern` occurs as a contiguous piece of `s` (Python's `pattern in s`). */
  predicate Contains(s: string, pattern: string)
    decreases |s|
  {
    if |pattern| > |s| then false
    else s[..|pattern|] == pattern || Contains(s[1..], pattern)
  }

  lemma {:induction false} ContainsAt(s: string, pattern: string, i: nat)
    requires i + |pattern| <= |s| && s[i..i + |pattern|] == pattern
    ensures Contains(s, pattern)
    decreases i
  {
    if i > 0 {
      assert s[1..][i - 1..i - 1 + |pattern|] == s[i..i + |pattern|];
      ContainsAt(s[1..], pattern, i - 1);
    }
  }

  /** A string found by `in` sits at some position: the converse of `ContainsAt`. */
  lemma {:induction false} ContainsSomewhere(s: string, pattern: string) returns (i: nat)
    requires Contains(s, pattern)
    ensures i + |pattern| <= |s| && s[i..i + |pattern|] == pattern
    decreases |s|
  {
    if s[..|pattern|] == pattern {
      i := 0;
    } else {
      var j := ContainsSomewhere(s[1..], pattern);
      i := j + 1;
      assert s[1..][j..j + |pattern|] == s[i..i + |pattern|];
    }
  }

  /** `'movie' in x.lower()`. */
  predicate MentionsMovie(t: string) {
    Contains(Labels.ToLower(t), "movie")
  }

  /** The test ignores letter case: a value and its lower-cased form are classified alike. */
  lemma MentionsMovieIgnoresCase(t: string)
    ensures MentionsMovie(t) == MentionsMovie(Labels.ToLower(t))
  {
    var l := Labels.ToLower(t);
    assert Labels.ToLower(l) == l;
  }

  /** The `type` column, one value per row. */
  function MediaTypes(rows: seq<Record>): seq<string> {
    seq(|rows|, k requires 0 <= k < |rows| => rows[k].mediaType)
  }

  /**
   * `show_list`: the distinct `type` values in order of first appearance (`unique()`) that do
   * not mention "movie" in any letter case.
   */
  function ShowList(rows: seq<Record>): (r: seq<string>)
    ensures Distinct(r)
    ensures forall t :: t in r <==> t in MediaTypes(rows) && !MentionsMovie(t)
  {
    var u := FirstOccurrences(MediaTypes(rows));
    FirstOccurrencesDistinct(MediaTypes(rows));
    FirstOccurrencesMembers(MediaTypes(rows));
    var r := Filter(u, t => !MentionsMovie(t));
    FilterIsSubsequence(u, t => !MentionsMovie(t));
    SubsequenceKeepsDistinct(r, u);
    r
  }

  lemma {:induction false} SubsequenceKeepsDistinct<T>(t: seq<T>, s: seq<T>)
    requires IsSubsequence(t, s) && Distinct(s)
    ensures Distinct(t)
    decreases |s|
  {
    if t != [] {
      assert Distinct(s[1..]) by {
        forall i, j | 0 <= i < j < |s| - 1 ensures s[1..][i] != s[1..][j] {
          assert s[1..][i] == s[i + 1] && s[1..][j] == s[j + 1];
        }
      }
      if t[0] == s[0] && IsSubsequence(t[1..], s[1..]) {
        SubsequenceKeepsDistinct(t[1..], s[1..]);
        SubsequenceMembers(t[1..], s[1..]);
        forall j | 0 < j < |t| ensures t[0] != t[j] {
          assert t[j] == t[1..][j - 1] && t[1..][j - 1] in s[1..];
          forall m | 0 <= m < |s| - 1 ensures s[1..][m] != s[0] {
            assert s[1..][m] == s[m + 1];
          }
        }
        forall i, j | 0 <= i < j < |t| ensures t[i] != t[j] {
          if i > 0 {
            assert t[i] == t[1..][i - 1] && t[j] == t[1..][j - 1];
          }
        }
      } else {
        SubsequenceKeepsDistinct(t, s[1..]);
      }
    }
  }

  lemma {:induction false} SubsequenceMembers<T>(t: seq<T>, s: seq<T>)
    requires IsSubsequence(t, s)
    ensures forall k :: 0 <= k < |t| ==> t[k] in s
    decreases |s|
  {
    if t != [] {
      if t[0] == s[0] && IsSubsequence(t[1..], s[1..]) {
        SubsequenceMembers(t[1..], s[1..]);
        forall k | 0 <= k < |t| ensures t[k] in s {
          if k > 0 {
            assert t[k] == t[1..][k - 1];
            assert t[1..][k - 1] in s[1..];
          }
        }
      } else {
        SubsequenceMembers(t, s[1..]);
        forall k | 0 <= k < |t| ensures t[k] in s {
          assert t[k] in s[1..];
        }
      }
    }
  }

  /** `Series.replace(wrong, correct)` on one value: a value listed in `wrong` becomes `correct`. */
  function CanonicalType(t: string, wrong: seq<string>, correct: string): string {
    if t in wrong then correct else t
  }

  /** The table after `replace_wrong_show`: only the `type` column is rewritten. */
  function CanonicalizeTypes(rows: seq<Record>, wrong: seq<string>, correct: string): (r: seq<Record>)
    ensures |r| == |rows|
    ensures forall k :: 0 <= k < |r| ==> r[k] == rows[k].(mediaType := r[k].mediaType)
    ensures forall k :: 0 <= k < |r| ==> r[k].mediaType == correct || r[k].mediaType !in wrong
  {
    seq(|rows|, k requires 0 <= k < |rows| =>
      rows[k].(mediaType := CanonicalType(rows[k].mediaType, wrong, correct)))
  }

  /**
   * `replace_wrong_show(dataframe, 'type', wrong_shows_list, correct_show)`: overwrites the
   * `type` column of the table in place. The row count and every other column are unchanged.
   */
  method ReplaceWrongShow(table: array<Record>, wrongShows: seq<string>, correctShow: string)
    modifies table
    ensures table[..] == CanonicalizeTypes(old(table[..]), wrongShows, correctShow)
    ensures forall k :: 0 <= k < table.Length ==>
      table[k] == old(table[k]).(mediaType := table[k].mediaType)
  {
    for i := 0 to table.Length
      invariant forall k :: 0 <= k < i ==>
        table[k] == old(table[k]).(mediaType := CanonicalType(old(table[k]).mediaType, wrongShows, correctShow))
      invariant forall k :: i <= k < table.Length ==> table[k] == old(table[k])
    {
      table[i] := table[i].(mediaType := CanonicalType(table[i].mediaType, wrongShows, correctShow));
    }
  }

  /** Replacing a second time with the same list changes nothing. */
  lemma CanonicalizeTypesIdempotent(rows: seq<Record>, wrong: seq<string>, correct: string)
    ensures CanonicalizeTypes(CanonicalizeTypes(rows, wrong, correct), wrong, correct) ==
            CanonicalizeTypes(rows, wrong, correct)
  {
    var r := CanonicalizeTypes(rows, wrong, correct);
    var r2 := CanonicalizeTypes(r, wrong, correct);
    forall k | 0 <= k < |r| ensures r2[k] == r[k] {
      assert r2[k].mediaType == r[k].mediaType;
    }
  }

  /**
   * With the derived `show_list`, every `type` value that does not mention "movie" becomes
   * "SHOW", values that mention it are untouched, and nothing else in any row changes.
   */
  lemma ShowCanonicalization(rows: seq<Record>)
    ensures var r := CanonicalizeTypes(rows, ShowList(rows), "SHOW");
      && |r| == |rows|
      && (forall k :: 0 <= k < |rows| && !MentionsMovie(rows[k].mediaType) ==>
            r[k] == rows[k].(mediaType := "SHOW"))
      && (forall k :: 0 <= k < |rows| && MentionsMovie(rows[k].mediaType) ==> r[k] == rows[k])
  {
    var r := CanonicalizeTypes(rows, ShowList(rows), "SHOW");
    forall k | 0 <= k < |rows|
      ensures !MentionsMovie(rows[k].mediaType) ==> r[k] == rows[k].(mediaType := "SHOW")
      ensures MentionsMovie(rows[k].mediaType) ==> r[k] == rows[k]
    {
      assert MediaTypes(rows)[k] == rows[k].mediaType;
    }
  }

  /** After canonicalization every `type` is "SHOW" or mentions "movie". */
  lemma CanonicalTypes(rows: seq<Record>)
    ensures forall x :: x in CanonicalizeTypes(rows, ShowList(rows), "SHOW") ==>
      x.mediaType == "SHOW" || MentionsMovie(x.mediaType)
  {
    ShowCanonicalization(rows);
  }

  /**
   * The cleaned table: null drop, duplicate drop, then the `type` rewrite with `show_list`.
   * It is no longer than the input, every row has a score and a vote count, and every type
   * is "SHOW" or mentions "movie".
   */
  function Cleaned(rows: seq<Record>): (r: seq<Record>)
    ensures |r| <= |rows|
    ensures AllComplete(r)
    ensures forall k :: 0 <= k < |r| ==> r[k].mediaType == "SHOW" || MentionsMovie(r[k].mediaType)
  {
    var complete := DropMissing(rows);
    var unique := FirstOccurrences(complete);
    var r := CanonicalizeTypes(unique, ShowList(unique), "SHOW");
    CountDuplicatedComplement(complete);
    UniqueComplete(rows);
    CanonicalTypes(unique);
    assert forall k :: 0 <= k < |r| ==> r[k] in r;
    r
  }

  lemma UniqueComplete(rows: seq<Record>)
    ensures AllComplete(FirstOccurrences(DropMissing(rows)))
  {
    var unique := FirstOccurrences(DropMissing(rows));
    FirstOccurrencesMembers(DropMissing(rows));
    forall k | 0 <= k < |unique| ensures HasScoreAndVotes(unique[k]) {
      assert unique[k] in unique;
    }
  }

  /**
   * The cleaning cells in order, the table rebound after each: null drop, duplicate drop,
   * then the derived `show_list` and `replace_wrong_show` on the deduplicated table.
   */
  method CleanTable(rows: seq<Record>) returns (r: seq<Record>)
    ensures r == Cleaned(rows)
    ensures |r| <= |rows|
    ensures AllComplete(r)
    ensures forall k :: 0 <= k < |r| ==> r[k].mediaType == "SHOW" || MentionsMovie(r[k].mediaType)
  {
    var complete := DropMissing(rows);
    var unique := DropDuplicates(complete);
    var showList := ShowList(unique);
    var table := new Record[|unique|](k requires 0 <= k < |unique| => unique[k]);
    assert table[..] == unique;
    ReplaceWrongShow(table, showList, "SHOW");
    r := table[..];
  }
}
