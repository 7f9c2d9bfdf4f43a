/**
 * Sequence facts shared by the cleaning and aggregation stages: the order-preserving
 * filter behind every boolean-mask selection, subsequences, and the keep-the-first-
 * occurrence rule behind `unique()` and `drop_duplicates()`.
 */
module Seqs {

  /** The rows of `s` that satisfy `p`, in their original order (a boolean mask). */
  function Filter<T(!new)>(s: seq<T>, p: T -> bool): (r: seq<T>)
    ensures |r| <= |s|
    ensures forall x :: x in r <==> x in s && p(x)
  {
    if s == [] then []
    else
      var rest := Filter(s[1..], p);
      assert s == [s[0]] + s[1..];
      if p(s[0]) then [s[0]] + rest else rest
  }

  /** A selection every element passes keeps the whole sequence. */
  lemma {:induction false} FilterAll<T(!new)>(s: seq<T>, p: T -> bool)
    requires forall k :: 0 <= k < |s| ==> p(s[k])
    ensures Filter(s, p) == s
  {
    if s != [] {
      FilterAll(s[1..], p);
    }
  }

  /** The filter keeps every occurrence of a value it keeps, and none of one it drops. */
  lemma {:induction false} FilterCounts<T(!new)>(s: seq<T>, p: T -> bool)
    ensures forall x :: multiset(Filter(s, p))[x] == if p(x) then multiset(s)[x] else 0
  {
    if s != [] {
      FilterCounts(s[1..], p);
      assert s == [s[0]] + s[1..];
      assert multiset(s) == multiset{s[0]} + multiset(s[1..]);
    }
  }

  /** `t` can be obtained from `s` by deleting elements, keeping the order of the rest. */
  predicate IsSubsequence<T(==)>(t: seq<T>, s: seq<T>)
    decreases |s|
  {
    if t == [] then true
    else if s == [] then false
    else (t[0] == s[0] && IsSubsequence(t[1..], s[1..])) || IsSubsequence(t, s[1..])
  }

  lemma {:induction false} FilterIsSubsequence<T(!new)>(s: seq<T>, p: T -> bool)
    ensures IsSubsequence(Filter(s, p), s)
  {
    if s != [] {
      FilterIsSubsequence(s[1..], p);
      if p(s[0]) {
        var r := Filter(s, p);
        assert r[0] == s[0] && r[1..] == Filter(s[1..], p);
      }
    }
  }

  /** Filtering by `p` and then by `q` is filtering once by their conjunction `both`. */
  lemma {:induction false} FilterFilter<T(!new)>(s: seq<T>, p: T -> bool, q: T -> bool, both: T -> bool)
    requires forall x :: both(x) == (p(x) && q(x))
    ensures Filter(Filter(s, p), q) == Filter(s, both)
  {
    if s != [] {
      FilterFilter(s[1..], p, q, both);
      if p(s[0]) {
        assert Filter(s, p) == [s[0]] + Filter(s[1..], p);
        assert Filter(s, p)[1..] == Filter(s[1..], p);
      }
    }
  }

  /** No two positions of `s` hold equal values. */
  predicate Distinct<T(==)>(s: seq<T>) {
    forall i, j :: 0 <= i < j < |s| ==> s[i] != s[j]
  }

  /** Index of the first occurrence of `x` in `s`. */
  function FirstIndex<T(==)>(s: seq<T>, x: T): (k: nat)
    requires x in s
    ensures k < |s| && s[k] == x && x !in s[..k]
  {
    if s[0] == x then 0
    else
      var k := 1 + FirstIndex(s[1..], x);
      assert s[..k] == [s[0]] + s[1..][..k - 1];
      k
  }

  /**
   * The elements of `s` at the positions where they occur for the first time, in order:
   * a position is dropped exactly when an earlier position holds an equal value.
   */
  function FirstOccurrences<T(==)>(s: seq<T>): seq<T>
    decreases |s|
  {
    if s == [] then []
    else
      var init := s[..|s| - 1];
      FirstOccurrences(init) + (if s[|s| - 1] in init then [] else [s[|s| - 1]])
  }

  /** Number of positions whose value already occurred earlier (`duplicated().sum()`). */
  function CountDuplicated<T(==)>(s: seq<T>): nat
    decreases |s|
  {
    if s == [] then 0
    else
      var init := s[..|s| - 1];
      CountDuplicated(init) + (if s[|s| - 1] in init then 1 else 0)
  }

  lemma {:induction false} FirstOccurrencesMembers<T>(s: seq<T>)
    ensures forall x :: x in FirstOccurrences(s) <==> x in s
    ensures forall k :: 0 <= k < |FirstOccurrences(s)| ==> FirstOccurrences(s)[k] in s
    decreases |s|
  {
    if s != [] {
      var init := s[..|s| - 1];
      FirstOccurrencesMembers(init);
      assert s == init + [s[|s| - 1]];
    }
  }

  /** What `drop_duplicates()` keeps: no two rows are equal. */
  lemma {:induction false} FirstOccurrencesDistinct<T>(s: seq<T>)
    ensures Distinct(FirstOccurrences(s))
    decreases |s|
  {
    if s != [] {
      var init := s[..|s| - 1];
      FirstOccurrencesDistinct(init);
      FirstOccurrencesMembers(init);
    }
  }

  lemma {:induction false} FirstOccurrencesIsSubsequence<T>(s: seq<T>)
    ensures IsSubsequence(FirstOccurrences(s), s)
    decreases |s|
  {
    if s != [] {
      var init := s[..|s| - 1];
      var last := s[|s| - 1];
      FirstOccurrencesIsSubsequence(init);
      assert s == init + [last];
      if last in init {
        SubsequenceConcat(FirstOccurrences(init), init, [], [last]);
        assert FirstOccurrences(init) + [] == FirstOccurrences(init);
      } else {
        SubsequenceOfSelf([last]);
        SubsequenceConcat(FirstOccurrences(init), init, [last], [last]);
      }
    }
  }

  lemma {:induction false} SubsequenceOfSelf<T>(s: seq<T>)
    ensures IsSubsequence(s, s)
    decreases |s|
  {
    if s != [] {
      SubsequenceOfSelf(s[1..]);
    }
  }

  lemma {:induction false} SubsequenceDropPrefix<T>(t: seq<T>, s: seq<T>, prefix: seq<T>)
    requires IsSubsequence(t, s)
    ensures IsSubsequence(t, prefix + s)
    decreases |prefix|
  {
    if prefix == [] {
      assert prefix + s == s;
    } else if t != [] {
      SubsequenceDropPrefix(t, s, prefix[1..]);
      assert (prefix + s)[1..] == prefix[1..] + s;
    }
  }

  /** Subsequences of two sequences concatenate to a subsequence of the concatenation. */
  lemma {:induction false} SubsequenceConcat<T>(t1: seq<T>, s1: seq<T>, t2: seq<T>, s2: seq<T>)
    requires IsSubsequence(t1, s1) && IsSubsequence(t2, s2)
    ensures IsSubsequence(t1 + t2, s1 + s2)
    decreases |s1|
  {
    if t1 == [] {
      assert t1 + t2 == t2;
      SubsequenceDropPrefix(t2, s2, s1);
    } else {
      assert (t1 + t2)[0] == t1[0] && (t1 + t2)[1..] == t1[1..] + t2;
      assert (s1 + s2)[0] == s1[0] && (s1 + s2)[1..] == s1[1..] + s2;
      if t1[0] == s1[0] && IsSubsequence(t1[1..], s1[1..]) {
        SubsequenceConcat(t1[1..], s1[1..], t2, s2);
      } else {
        SubsequenceConcat(t1, s1[1..], t2, s2);
      }
    }
  }

  /**
   * The first occurrence is the one kept: the rows that survive appear in the order of
   * their first appearance in the input.
   */
  lemma {:induction false} FirstOccurrencesOrder<T>(s: seq<T>)
    ensures forall i, j :: 0 <= i < j < |FirstOccurrences(s)| ==>
      FirstOccurrences(s)[i] in s && FirstOccurrences(s)[j] in s &&
      FirstIndex(s, FirstOccurrences(s)[i]) < FirstIndex(s, FirstOccurrences(s)[j])
    decreases |s|
  {
    if s != [] {
      var init := s[..|s| - 1];
      var last := s[|s| - 1];
      var r0 := FirstOccurrences(init);
      var r := FirstOccurrences(s);
      FirstOccurrencesOrder(init);
      FirstOccurrencesMembers(init);
      assert s == init + [last];
      assert r == r0 + (if last in init then [] else [last]);
      forall i, j | 0 <= i < j < |r|
        ensures r[i] in s && r[j] in s && FirstIndex(s, r[i]) < FirstIndex(s, r[j])
      {
        assert i < |r0|;
        assert r[i] == r0[i];
        assert r0[i] in r0;
        assert r0[i] in init;
        FirstIndexOfPrefix(init, [last], r0[i]);
        if j < |r0| {
          assert r[j] == r0[j] && r0[j] in r0;
          FirstIndexOfPrefix(init, [last], r0[j]);
        } else {
          assert r[j] == last && last !in init;
          FirstIndexLast(init, last);
        }
      }
      assert forall i, j :: 0 <= i < j < |r| ==> r[i] in s && r[j] in s && FirstIndex(s, r[i]) < FirstIndex(s, r[j]);
    } else {
      assert FirstOccurrences(s) == [];
    }
  }

  lemma {:induction false} FirstIndexOfPrefix<T>(s: seq<T>, t: seq<T>, x: T)
    requires x in s
    ensures x in s + t && FirstIndex(s + t, x) == FirstIndex(s, x)
  {
    var k := FirstIndex(s, x);
    assert (s + t)[k] == x;
    assert (s + t)[..k] == s[..k];
    FirstIndexUnique(s + t, x, k);
  }

  lemma {:induction false} FirstIndexLast<T>(s: seq<T>, x: T)
    requires x !in s
    ensures x in s + [x] && FirstIndex(s + [x], x) == |s|
  {
    assert (s + [x])[|s|] == x;
    assert (s + [x])[..|s|] == s;
    FirstIndexUnique(s + [x], x, |s|);
  }

  /** A position holding `x` with no `x` before it is the first index of `x`. */
  lemma {:induction false} FirstIndexUnique<T>(s: seq<T>, x: T, k: nat)
    requires k < |s| && s[k] == x && x !in s[..k]
    ensures FirstIndex(s, x) == k
  {
    if k > 0 {
      assert s[..k][0] == s[0];
      assert s[1..][..k - 1] == s[..k][1..];
      FirstIndexUnique(s[1..], x, k - 1);
    }
  }

  /** On a sequence without repeated values, keeping first occurrences changes nothing. */
  lemma {:induction false} FirstOccurrencesOfDistinct<T>(s: seq<T>)
    requires Distinct(s)
    ensures FirstOccurrences(s) == s
    decreases |s|
  {
    if s != [] {
      var init := s[..|s| - 1];
      assert s == init + [s[|s| - 1]];
      DistinctSnoc(init, s[|s| - 1]);
      FirstOccurrencesOfDistinct(init);
    }
  }

  /** Removing first-occurrence duplicates twice is the same as once. */
  lemma FirstOccurrencesIdempotent<T>(s: seq<T>)
    ensures FirstOccurrences(FirstOccurrences(s)) == FirstOccurrences(s)
  {
    FirstOccurrencesDistinct(s);
    FirstOccurrencesOfDistinct(FirstOccurrences(s));
  }

  /** Every position is either kept or counted as a duplicate. */
  lemma {:induction false} CountDuplicatedComplement<T>(s: seq<T>)
    ensures CountDuplicated(s) + |FirstOccurrences(s)| == |s|
    decreases |s|
  {
    if s != [] {
      CountDuplicatedComplement(s[..|s| - 1]);
    }
  }

  /** `duplicated().sum()` is zero exactly on sequences without repeated values. */
  lemma CountDuplicatedZero<T>(s: seq<T>)
    ensures CountDuplicated(s) == 0 <==> Distinct(s)
  {
    CountDuplicatedComplement(s);
    if Distinct(s) {
      FirstOccurrencesOfDistinct(s);
    }
    if CountDuplicated(s) == 0 {
      FirstOccurrencesIsDistinctWhenFull(s);
    }
  }

  lemma {:induction false} FirstOccurrencesIsDistinctWhenFull<T>(s: seq<T>)
    requires |FirstOccurrences(s)| == |s|
    ensures Distinct(s)
    decreases |s|
  {
    if s != [] {
      var init := s[..|s| - 1];
      var last := s[|s| - 1];
      CountDuplicatedComplement(init);
      assert last !in init && |FirstOccurrences(init)| == |init|;
      FirstOccurrencesIsDistinctWhenFull(init);
      DistinctSnoc(init, last);
      assert s == init + [last];
    }
  }

  /** Appending a value keeps distinctness exactly when the value is new. */
  lemma DistinctSnoc<T>(init: seq<T>, last: T)
    ensures Distinct(init + [last]) <==> Distinct(init) && last !in init
  {
    var s := init + [last];
    if Distinct(s) {
      forall i, j | 0 <= i < j < |init| ensures init[i] != init[j] {
        assert init[i] == s[i] && init[j] == s[j];
      }
      forall k | 0 <= k < |init| ensures init[k] != last {
        assert init[k] == s[k] && last == s[|init|];
      }
    }
    if Distinct(init) && last !in init {
      forall i, j | 0 <= i < j < |s| ensures s[i] != s[j] {
        if j < |init| {
          assert s[i] == init[i] && s[j] == init[j];
        } else {
          assert s[i] == init[i] && s[j] == last;
        }
      }
    }
  }

  /** A sequence without repeated values is one in which every value occurs at most once. */
  lemma {:induction false} DistinctMultiset<T>(s: seq<T>)
    ensures Distinct(s) <==> forall x :: multiset(s)[x] <= 1
    decreases |s|
  {
    if s != [] {
      var init := s[..|s| - 1];
      var last := s[|s| - 1];
      DistinctMultiset(init);
      assert s == init + [last];
      DistinctSnoc(init, last);
      assert multiset(s) == multiset(init) + multiset{last};
      assert last !in init <==> multiset(init)[last] == 0;
      if forall x :: multiset(s)[x] <= 1 {
        assert multiset(s)[last] == multiset(init)[last] + 1;
        forall x ensures multiset(init)[x] <= 1 {
          assert multiset(init)[x] <= multiset(s)[x];
        }
      }
      if Distinct(init) && last !in init {
        forall x ensures multiset(s)[x] <= 1 {
          if x == last {
            assert multiset(s)[x] == 1;
          } else {
            assert multiset(s)[x] == multiset(init)[x];
          }
        }
      }
    }
  }

  /** Rearranging a sequence without repeated values gives one without repeated values. */
  lemma PermutationKeepsDistinct<T>(s: seq<T>, r: seq<T>)
    requires Distinct(s) && multiset(r) == multiset(s)
    ensures Distinct(r)
  {
    DistinctMultiset(s);
    DistinctMultiset(r);
  }

  /** A property of every element survives a rearrangement. */
  lemma PermutationPreserves<T>(s: seq<T>, r: seq<T>, P: T -> bool)
    requires multiset(r) == multiset(s)
    requires forall i :: 0 <= i < |s| ==> P(s[i])
    ensures forall i :: 0 <= i < |r| ==> P(r[i])
  {
    forall i | 0 <= i < |r| ensures P(r[i]) {
      assert r[i] in multiset(r);
      var a :| 0 <= a < |s| && s[a] == r[i];
    }
  }

  /** If no two elements share a key, no two share it after a rearrangement either. */
  lemma PermutationKeepsDistinctKeys<T>(s: seq<T>, r: seq<T>, key: T -> int)
    requires multiset(r) == multiset(s)
    requires forall i, j :: 0 <= i < j < |s| ==> key(s[i]) != key(s[j])
    ensures forall i, j :: 0 <= i < j < |r| ==> key(r[i]) != key(r[j])
  {
    forall i, j | 0 <= i < j < |s| ensures s[i] != s[j] {
      assert key(s[i]) != key(s[j]);
    }
    PermutationKeepsDistinct(s, r);
    forall i, j | 0 <= i < j < |r| ensures key(r[i]) != key(r[j]) {
      assert r[i] in multiset(r) && r[j] in multiset(r);
      var a :| 0 <= a < |s| && s[a] == r[i];
      var c :| 0 <= c < |s| && s[c] == r[j];
      assert a != c;
      if a < c {
        assert key(s[a]) != key(s[c]);
      } else {
        assert key(s[c]) != key(s[a]);
      }
    }
  }

  /** The copies of `x` in `[h] + t`. */
  lemma CountCons<T>(h: T, t: seq<T>, x: T)
    ensures multiset([h] + t)[x] == (if h == x then 1 else 0) + multiset(t)[x]
  {
    assert multiset([h] + t) == multiset{h} + multiset(t);
  }

  /** An injective map keeps the number of copies of every element. */
  lemma {:induction false} MapCount<T, U>(s: seq<T>, r: seq<U>, f: T -> U, y: T)
    requires |r| == |s| && forall k :: 0 <= k < |s| ==> r[k] == f(s[k])
    requires forall x :: f(x) == f(y) ==> x == y
    ensures multiset(r)[f(y)] == multiset(s)[y]
  {
    if s != [] {
      MapCount(s[1..], r[1..], f, y);
      assert s == [s[0]] + s[1..] && r == [r[0]] + r[1..];
      CountCons(s[0], s[1..], y);
      CountCons(r[0], r[1..], f(y));
    }
  }
}
