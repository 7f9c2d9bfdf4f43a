/**
 * The column-label normaliser: four passes over the table's column labels (strip surrounding
 * whitespace, lower-case, digit '0' to letter 'o', space to underscore). Each pass walks the
 * list of current labels and renames, one label at a time, every column carrying that label.
 * Only the labels are modelled; the data of the columns is unaffected by a rename.
 */
module Labels {

  /** Python's `str.isspace` on the ASCII range: tab, newline, vertical tab, form feed,
      carriage return, the four information separators and the space. */
  predicate IsSpace(c: char) {
    var n := c as int;
    n == 32 || 9 <= n <= 13 || 28 <= n <= 31
  }

  predicate IsUpper(c: char) {
    'A' <= c <= 'Z'
  }

  /** No whitespace at either end. */
  predicate Trimmed(s: string) {
    s == [] || (!IsSpace(s[0]) && !IsSpace(s[|s| - 1]))
  }

  /** `s` with its leading whitespace removed: the longest suffix that does not start with whitespace. */
  function TrimLeft(s: string): (r: string)
    ensures |r| <= |s| && r == s[|s| - |r|..]
    ensures forall k :: 0 <= k < |s| - |r| ==> IsSpace(s[k])
    ensures r == [] || !IsSpace(r[0])
  {
    if s != [] && IsSpace(s[0]) then TrimLeft(s[1..]) else s
  }

  /** `s` with its trailing whitespace removed: the longest prefix that does not end with whitespace. */
  function TrimRight(s: string): (r: string)
    ensures |r| <= |s| && r == s[..|r|]
    ensures forall k :: |r| <= k < |s| ==> IsSpace(s[k])
    ensures r == [] || !IsSpace(r[|r| - 1])
  {
    if s != [] && IsSpace(s[|s| - 1]) then TrimRight(s[..|s| - 1]) else s
  }

  /** `str.strip()`: leading and trailing whitespace removed. */
  function Strip(s: string): (r: string)
    ensures Trimmed(r)
    ensures Trimmed(s) ==> r == s
  {
    var l := TrimLeft(s);
    var r := TrimRight(l);
    assert r == [] || r[0] == l[0];
    r
  }

  /**
   * What `Strip` keeps is the slice `s[i..j]`, and everything it cuts off before `i` and
   * after `j` is whitespace.
   */
  lemma StripIsSlice(s: string) returns (i: nat, j: nat)
    ensures i <= j <= |s| && Strip(s) == s[i..j]
    ensures forall k :: 0 <= k < i ==> IsSpace(s[k])
    ensures forall k :: j <= k < |s| ==> IsSpace(s[k])
  {
    var l := TrimLeft(s);
    var r := TrimRight(l);
    assert Strip(s) == r;
    i, j := |s| - |l|, |s| - |l| + |r|;
    PrefixOfSuffix(s, l, r);
  }

  /** A prefix `r` of a suffix `l` of `s` is a slice of `s`; what follows `r` in `l` follows it in `s`. */
  lemma PrefixOfSuffix(s: string, l: string, r: string)
    requires |l| <= |s| && l == s[|s| - |l|..]
    requires |r| <= |l| && r == l[..|r|]
    requires forall k :: |r| <= k < |l| ==> IsSpace(l[k])
    ensures var i := |s| - |l|; var j := i + |r|;
      && j <= |s| && r == s[i..j]
      && (forall k :: j <= k < |s| ==> IsSpace(s[k]))
  {
    var i := |s| - |l|;
    forall k | 0 <= k < |r| ensures r[k] == s[i + k] {
      assert r[k] == l[k] && l[k] == s[i + k];
    }
    forall k | i + |r| <= k < |s| ensures IsSpace(s[k]) {
      assert |r| <= k - i < |l| && s[k] == l[k - i];
    }
  }

  function LowerChar(c: char): (d: char)
    ensures !IsUpper(d)
    ensures IsSpace(d) <==> IsSpace(c)
    ensures !IsUpper(c) ==> d == c
    ensures IsUpper(c) ==> d as int == c as int + 32
  {
    if IsUpper(c) then (c as int + 32) as char else c
  }

  /** `str.lower()` on ASCII letters: every upper-case letter is lowered, nothing else changes. */
  function ToLower(s: string): (r: string)
    ensures |r| == |s|
    ensures forall k :: 0 <= k < |r| ==> !IsUpper(r[k])
    ensures forall k :: 0 <= k < |r| ==> IsSpace(r[k]) == IsSpace(s[k])
    ensures (forall k :: 0 <= k < |s| ==> !IsUpper(s[k])) ==> r == s
    ensures forall k :: 0 <= k < |s| && IsUpper(s[k]) ==> r[k] as int == s[k] as int + 32
    ensures forall k :: 0 <= k < |s| && !IsUpper(s[k]) ==> r[k] == s[k]
  {
    seq(|s|, k requires 0 <= k < |s| => LowerChar(s[k]))
  }

  /** `str.replace(pattern, subst)` for one-character patterns. */
  function ReplaceChar(s: string, pattern: char, subst: char): (r: string)
    ensures |r| == |s|
    ensures pattern != subst ==> pattern !in r
    ensures forall k :: 0 <= k < |s| && s[k] != pattern ==> r[k] == s[k]
    ensures forall k :: 0 <= k < |s| && s[k] == pattern ==> r[k] == subst
    ensures pattern !in s ==> r == s
  {
    seq(|s|, k requires 0 <= k < |s| => if s[k] == pattern then subst else s[k])
  }

  /** The four rewrites applied by the four helper functions. */
  datatype Pass = StripWhitespace | LowerCase | ZeroToLetterO | SpaceToUnderscore

  function Apply(p: Pass, s: string): string {
    match p
    case StripWhitespace => Strip(s)
    case LowerCase => ToLower(s)
    case ZeroToLetterO => ReplaceChar(s, '0', 'o')
    case SpaceToUnderscore => ReplaceChar(s, ' ', '_')
  }

  /** Every pass is idempotent. This is what makes renaming by name equal to rewriting by position. */
  lemma ApplyIdempotent(p: Pass, s: string)
    ensures Apply(p, Apply(p, s)) == Apply(p, s)
  {
    match p
    case StripWhitespace =>
    case LowerCase =>
    case ZeroToLetterO =>
    case SpaceToUnderscore =>
  }

  /** The pass applied to each label in place: the label at position k becomes `Apply(p, labels[k])`. */
  function MapPass(p: Pass, labels: seq<string>): (r: seq<string>)
    ensures |r| == |labels|
  {
    seq(|labels|, k requires 0 <= k < |labels| => Apply(p, labels[k]))
  }

  /** `dataframe.rename(columns = {from: to})`: every column whose label is `from` is relabelled `to`. */
  function Rename(labels: seq<string>, from: string, to: string): (r: seq<string>)
    ensures |r| == |labels|
  {
    seq(|labels|, k requires 0 <= k < |labels| => if labels[k] == from then to else labels[k])
  }

  /**
   * A rename with a label no column carries changes nothing; otherwise the new label appears,
   * and unless it equals the old one the old label is gone.
   */
  lemma RenameTargets(labels: seq<string>, from: string, to: string)
    ensures from !in labels ==> Rename(labels, from, to) == labels
    ensures from in labels ==> to in Rename(labels, from, to)
    ensures from != to ==> from !in Rename(labels, from, to)
  {
    var r := Rename(labels, from, to);
    if from in labels {
      var k :| 0 <= k < |labels| && labels[k] == from;
      assert r[k] == to;
    }
  }

  /**
   * The loop shared by the four helpers: for each label `col` of the list taken before the
   * loop, rename the columns now labelled `col` to the rewritten `col`. Although a rename can
   * hit a column renamed earlier in the same loop, the outcome is the position-wise rewrite.
   */
  method RenameEach(labels: seq<string>, p: Pass) returns (r: seq<string>)
    ensures r == MapPass(p, labels)
  {
    r := labels;
    for i := 0 to |labels|
      invariant RenamedUpTo(p, labels, r, i)
    {
      RenameStep(p, labels, r, i);
      r := Rename(r, labels[i], Apply(p, labels[i]));
    }
  }

  /** After `i` renames, labels before `i` are rewritten and the rest are original or rewritten. */
  ghost predicate RenamedUpTo(p: Pass, labels: seq<string>, r: seq<string>, i: nat) {
    && i <= |labels|
    && |r| == |labels|
    && (forall k :: 0 <= k < i ==> r[k] == Apply(p, labels[k]))
    && (forall k :: i <= k < |labels| ==> r[k] == labels[k] || r[k] == Apply(p, labels[k]))
  }

  lemma RenameStep(p: Pass, labels: seq<string>, r: seq<string>, i: nat)
    requires RenamedUpTo(p, labels, r, i) && i < |labels|
    ensures RenamedUpTo(p, labels, Rename(r, labels[i], Apply(p, labels[i])), i + 1)
  {
    var r' := Rename(r, labels[i], Apply(p, labels[i]));
    forall k | 0 <= k < |labels|
      ensures r'[k] == labels[k] || r'[k] == Apply(p, labels[k])
      ensures k <= i ==> r'[k] == Apply(p, labels[k])
    {
      RenameStepAt(p, labels[i], labels[k], r[k], k == i);
    }
  }

  /**
   * One label under one rename: a label that is still original or already rewritten stays
   * so, and the label being renamed becomes rewritten.
   */
  lemma RenameStepAt(p: Pass, col: string, name: string, current: string, isCol: bool)
    requires current == name || current == Apply(p, name)
    requires isCol ==> name == col
    ensures var next := if current == col then Apply(p, col) else current;
      && (next == name || next == Apply(p, name))
      && (isCol ==> next == Apply(p, name))
      && (current == Apply(p, name) ==> next == Apply(p, name))
  {
    ApplyIdempotent(p, name);
  }

  /** `remove_white_space`: every label loses its surrounding whitespace and nothing else. */
  method RemoveWhiteSpace(labels: seq<string>) returns (r: seq<string>)
    ensures r == MapPass(StripWhitespace, labels)
    ensures forall k :: 0 <= k < |r| ==> Trimmed(r[k])
  {
    r := RenameEach(labels, StripWhitespace);
  }

  /** `lower_case`: no label has an upper-case letter afterwards. */
  method LowerCaseLabels(labels: seq<string>) returns (r: seq<string>)
    ensures r == MapPass(LowerCase, labels)
    ensures forall k, c :: 0 <= k < |r| && 0 <= c < |r[k]| ==> !IsUpper(r[k][c])
  {
    r := RenameEach(labels, LowerCase);
  }

  /** The first `replace_zero`: no label contains the digit '0' afterwards. */
  method ReplaceZero(labels: seq<string>) returns (r: seq<string>)
    ensures r == MapPass(ZeroToLetterO, labels)
    ensures forall k :: 0 <= k < |r| ==> '0' !in r[k]
  {
    r := RenameEach(labels, ZeroToLetterO);
  }

  /** The second `replace_zero` (it reuses the name but writes snake case): no label contains a space. */
  method SnakeCase(labels: seq<string>) returns (r: seq<string>)
    ensures r == MapPass(SpaceToUnderscore, labels)
    ensures forall k :: 0 <= k < |r| ==> ' ' !in r[k]
  {
    r := RenameEach(labels, SpaceToUnderscore);
  }

  /** A label in the target style. */
  predicate Normalized(s: string) {
    && Trimmed(s)
    && (forall c :: 0 <= c < |s| ==> !IsUpper(s[c]))
    && '0' !in s
    && ' ' !in s
  }

  /**
   * One label through the four passes, in the script's order. Only the strip changes the
   * length; the later passes rewrite character by character.
   */
  function Normalize(s: string): (r: string)
    ensures |r| == |Strip(s)|
  {
    ReplaceChar(ReplaceChar(ToLower(Strip(s)), '0', 'o'), ' ', '_')
  }

  /** The column labels after the four passes: one label per column, in order, each in the target style. */
  function NormalizeAll(labels: seq<string>): (r: seq<string>)
    ensures |r| == |labels|
    ensures forall k :: 0 <= k < |r| ==> Normalized(r[k])
  {
    var r := seq(|labels|, k requires 0 <= k < |labels| => Normalize(labels[k]));
    forall k | 0 <= k < |r| ensures Normalized(r[k]) {
      NormalizeNormalizes(labels[k]);
    }
    r
  }

  /** After the four passes a label is trimmed, lower-case, and free of '0' and ' '. */
  lemma NormalizeNormalizes(s: string)
    ensures Normalized(Normalize(s))
  {
    var b := ToLower(Strip(s));
    LowerKeepsTrimmed(Strip(s));
    var c := ReplaceChar(b, '0', 'o');
    ReplaceKeeps(b, '0', 'o');
    ReplaceKeeps(c, ' ', '_');
  }

  lemma LowerKeepsTrimmed(s: string)
    requires Trimmed(s)
    ensures Trimmed(ToLower(s))
  {
    var b := ToLower(s);
    assert b == [] || (IsSpace(b[0]) == IsSpace(s[0]) && IsSpace(b[|b| - 1]) == IsSpace(s[|s| - 1]));
  }

  /**
   * A one-character replacement by a letter that is neither whitespace nor upper case keeps a
   * label trimmed, keeps it free of capitals, and adds no character other than the substitute.
   */
  lemma ReplaceKeeps(s: string, pattern: char, subst: char)
    requires !IsSpace(subst) && !IsUpper(subst)
    ensures Trimmed(s) ==> Trimmed(ReplaceChar(s, pattern, subst))
    ensures (forall k :: 0 <= k < |s| ==> !IsUpper(s[k])) ==>
      forall k :: 0 <= k < |s| ==> !IsUpper(ReplaceChar(s, pattern, subst)[k])
    ensures forall c :: c !in s && c != subst ==> c !in ReplaceChar(s, pattern, subst)
  {
    var r := ReplaceChar(s, pattern, subst);
    forall c | c !in s && c != subst ensures c !in r {
      forall k | 0 <= k < |r| ensures r[k] != c {
        assert s[k] != c;
      }
    }
  }

  /** A label already in the target style passes through unchanged. */
  lemma NormalizeFixesNormalized(s: string)
    requires Normalized(s)
    ensures Normalize(s) == s
  {
  }

  /** Normalising twice is normalising once. */
  lemma NormalizeIdempotent(s: string)
    ensures Normalize(Normalize(s)) == Normalize(s)
  {
    NormalizeNormalizes(s);
    NormalizeFixesNormalized(Normalize(s));
  }

  /**
   * The script's sequence of four calls, each handed the labels the previous one produced.
   * The number and order of labels is kept, and each label ends in the target style.
   */
  method NormalizeColumns(labels: seq<string>) returns (r: seq<string>)
    ensures r == NormalizeAll(labels)
    ensures forall k :: 0 <= k < |r| ==> Normalized(r[k])
  {
    var a := RemoveWhiteSpace(labels);
    var b := LowerCaseLabels(a);
    var c := ReplaceZero(b);
    r := SnakeCase(c);
    forall k | 0 <= k < |r| ensures r[k] == Normalize(labels[k]) && Normalized(r[k]) {
      NormalizeNormalizes(labels[k]);
    }
  }

  /** Normalising an already normalised label list changes nothing. */
  lemma NormalizeAllIdempotent(labels: seq<string>)
    ensures NormalizeAll(NormalizeAll(labels)) == NormalizeAll(labels)
  {
    forall k | 0 <= k < |labels|
      ensures NormalizeAll(NormalizeAll(labels))[k] == NormalizeAll(labels)[k]
    {
      NormalizeIdempotent(labels[k]);
    }
  }
}
