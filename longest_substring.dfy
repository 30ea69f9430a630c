/** Length of the longest common contiguous substring, `ComponentConverter.longestSubstr`. */
module LongestSubstring {

  /** The length-`k` substrings of `a` at `p` and of `b` at `q` are equal. */
  predicate CommonAt(a: string, b: string, p: nat, q: nat, k: nat)
  {
    p + k <= |a| && q + k <= |b| && a[p..p + k] == b[q..q + k]
  }

  /** Some substring of length `k` occurs in both `a` and `b`. */
  ghost predicate CommonSubstring(a: string, b: string, k: nat)
  {
    exists p: nat, q: nat :: CommonAt(a, b, p, q, k)
  }

  /** `k` is the greatest length of a substring common to `a` and `b`. */
  ghost predicate IsLongestCommon(a: string, b: string, k: nat)
  {
    CommonSubstring(a, b, k) && forall k': nat :: CommonSubstring(a, b, k') ==> k' <= k
  }

  /** Length of the longest common suffix of `a[..i]` and `b[..j]`: the value the
      dynamic-programming table holds for the cell of characters `a[i-1]`, `b[j-1]`. */
  function SuffixLen(a: string, b: string, i: nat, j: nat): (r: nat)
    requires i <= |a| && j <= |b|
    ensures r <= i && r <= j
  {
    if i == 0 || j == 0 || a[i - 1] != b[j - 1] then 0
    else SuffixLen(a, b, i - 1, j - 1) + 1
  }

  /** A common substring followed by equal characters extends to one character longer. */
  lemma CommonAtExtend(a: string, b: string, p: nat, q: nat, k: nat)
    requires CommonAt(a, b, p, q, k) && p + k < |a| && q + k < |b| && a[p + k] == b[q + k]
    ensures CommonAt(a, b, p, q, k + 1)
  {
    assert a[p..p + k + 1] == a[p..p + k] + [a[p + k]];
    assert b[q..q + k + 1] == b[q..q + k] + [b[q + k]];
  }

  /** The suffixes `SuffixLen` measures are common to both strings. */
  lemma {:induction false} SuffixLenIsCommonSuffix(a: string, b: string, i: nat, j: nat)
    requires i <= |a| && j <= |b|
    ensures CommonAt(a, b, i - SuffixLen(a, b, i, j), j - SuffixLen(a, b, i, j), SuffixLen(a, b, i, j))
  {
    if i > 0 && j > 0 && a[i - 1] == b[j - 1] {
      var r := SuffixLen(a, b, i - 1, j - 1);
      SuffixLenIsCommonSuffix(a, b, i - 1, j - 1);
      CommonAtExtend(a, b, i - 1 - r, j - 1 - r, r);
    } else {
      assert CommonAt(a, b, i, j, 0);
    }
  }

  /** The common suffixes `SuffixLen` measures cannot be extended one character further. */
  lemma {:induction false} SuffixLenIsMaximal(a: string, b: string, i: nat, j: nat)
    requires i <= |a| && j <= |b|
    ensures var r := SuffixLen(a, b, i, j); r < i && r < j ==> a[i - r - 1] != b[j - r - 1]
  {
    if i > 0 && j > 0 && a[i - 1] == b[j - 1] {
      SuffixLenIsMaximal(a, b, i - 1, j - 1);
    }
  }

  /** Largest `SuffixLen(a, b, i, q)` over the columns `1 <= q <= j`, or 0. */
  function RowMax(a: string, b: string, i: nat, j: nat): (r: nat)
    requires i <= |a| && j <= |b|
    ensures r <= i && r <= j
    ensures forall q :: 1 <= q <= j ==> SuffixLen(a, b, i, q) <= r
  {
    if j == 0 then 0
    else
      var m := RowMax(a, b, i, j - 1);
      var s := SuffixLen(a, b, i, j);
      if s > m then s else m
  }

  /** Largest `SuffixLen(a, b, p, q)` over the rows `1 <= p <= i` and all columns, or 0. */
  function GridMax(a: string, b: string, i: nat): (r: nat)
    requires i <= |a|
    ensures r <= i && r <= |b|
    ensures forall p, q :: 1 <= p <= i && 1 <= q <= |b| ==> SuffixLen(a, b, p, q) <= r
  {
    if i == 0 then 0
    else
      var m := GridMax(a, b, i - 1);
      var s := RowMax(a, b, i, |b|);
      if s > m then s else m
  }

  /** A nonzero row maximum is the value of some cell of the row. */
  lemma {:induction false} RowMaxAttained(a: string, b: string, i: nat, j: nat) returns (q: nat)
    requires i <= |a| && j <= |b| && RowMax(a, b, i, j) != 0
    ensures 1 <= q <= j && SuffixLen(a, b, i, q) == RowMax(a, b, i, j)
  {
    if SuffixLen(a, b, i, j) > RowMax(a, b, i, j - 1) {
      q := j;
    } else {
      q := RowMaxAttained(a, b, i, j - 1);
    }
  }

  /** A nonzero table maximum is the value of some cell of the table. */
  lemma {:induction false} GridMaxAttained(a: string, b: string, i: nat) returns (p: nat, q: nat)
    requires i <= |a| && GridMax(a, b, i) != 0
    ensures 1 <= p <= i && 1 <= q <= |b| && SuffixLen(a, b, p, q) == GridMax(a, b, i)
  {
    if RowMax(a, b, i, |b|) > GridMax(a, b, i - 1) {
      p := i;
      q := RowMaxAttained(a, b, i, |b|);
    } else {
      p, q := GridMaxAttained(a, b, i - 1);
    }
  }

  /** The largest value anywhere in the table: the score `longestSubstr` returns. */
  function Lcs(a: string, b: string): (r: nat)
    ensures r <= |a| && r <= |b|
    ensures a == "" || b == "" ==> r == 0
  {
    GridMax(a, b, |a|)
  }

  /** A common substring of length `k` ending at `p`, `q` leaves a common suffix of at least `k`. */
  lemma {:induction false} SuffixLenCovers(a: string, b: string, p: nat, q: nat, k: nat)
    requires CommonAt(a, b, p, q, k)
    ensures SuffixLen(a, b, p + k, q + k) >= k
  {
    if k > 0 {
      assert a[p..p + k - 1] == a[p..p + k][..k - 1];
      assert b[q..q + k - 1] == b[q..q + k][..k - 1];
      SuffixLenCovers(a, b, p, q, k - 1);
      assert a[p + k - 1] == a[p..p + k][k - 1];
      assert b[q + k - 1] == b[q..q + k][k - 1];
    }
  }

  /** Some common substring is as long as the table maximum. */
  lemma GridMaxIsCommon(a: string, b: string)
    ensures CommonSubstring(a, b, GridMax(a, b, |a|))
  {
    var m := GridMax(a, b, |a|);
    if m == 0 {
      assert CommonAt(a, b, 0, 0, 0);
    } else {
      var p, q := GridMaxAttained(a, b, |a|);
      SuffixLenIsCommonSuffix(a, b, p, q);
      assert CommonAt(a, b, p - m, q - m, m);
    }
  }

  /** No common substring is longer than the table maximum. */
  lemma GridMaxIsUpperBound(a: string, b: string, k: nat)
    requires CommonSubstring(a, b, k)
    ensures k <= GridMax(a, b, |a|)
  {
    if k > 0 {
      var p: nat, q: nat :| CommonAt(a, b, p, q, k);
      SuffixLenCovers(a, b, p, q, k);
      assert SuffixLen(a, b, p + k, q + k) <= GridMax(a, b, |a|);
    }
  }

  /** The table maximum is exactly the longest common substring length. */
  lemma LcsIsLongest(a: string, b: string)
    ensures IsLongestCommon(a, b, GridMax(a, b, |a|))
  {
    GridMaxIsCommon(a, b);
    forall k: nat | CommonSubstring(a, b, k) ensures k <= GridMax(a, b, |a|) {
      GridMaxIsUpperBound(a, b, k);
    }
  }

  /** `Lcs` is the longest common substring length, so in particular it never exceeds either length. */
  lemma LcsSpec(a: string, b: string)
    ensures IsLongestCommon(a, b, Lcs(a, b))
  {
    LcsIsLongest(a, b);
  }

  /** A common substring of length `k` makes the score at least `k`. */
  lemma LcsAtLeast(a: string, b: string, p: nat, q: nat, k: nat)
    requires CommonAt(a, b, p, q, k)
    ensures k <= Lcs(a, b)
  {
    LcsSpec(a, b);
    assert CommonSubstring(a, b, k);
  }

  /** Each character inside a common substring's occurrence in `b` occurs in `a`. */
  lemma CommonAtHasChar(a: string, b: string, p: nat, q: nat, k: nat, i: nat)
    requires CommonAt(a, b, p, q, k) && q <= i < q + k
    ensures b[i] in a
  {
    assert b[i] == b[q..q + k][i - q] == a[p..p + k][i - q] == a[p + i - q];
  }

  /** A character of `b` that `a` lacks, at a position every window of `k + 1` characters of `b`
      covers, keeps the score at most `k`. */
  lemma LcsAtMost(a: string, b: string, k: nat, mark: nat)
    requires mark < |b| && b[mark] !in a
    requires |b| <= mark + k + 1 && mark <= k
    ensures Lcs(a, b) <= k
  {
    LcsSpec(a, b);
    var m := Lcs(a, b);
    if m > k {
      var p: nat, q: nat :| CommonAt(a, b, p, q, m);
      CommonAtHasChar(a, b, p, q, m, mark);
    }
  }

  /** The cells before row `i`, column `j` (row by row) hold their `SuffixLen` value,
      and the cells from there on still hold the initial 0. */
  ghost predicate FilledUpTo(table: array2<int>, a: string, b: string, i: nat, j: nat)
    reads table
    requires table.Length0 == |a| && table.Length1 == |b|
  {
    && (forall p, q :: 0 <= p < i && p < |a| && 0 <= q < |b| ==> table[p, q] == SuffixLen(a, b, p + 1, q + 1))
    && (forall q :: 0 <= q < j && q < |b| && i < |a| ==> table[i, q] == SuffixLen(a, b, i + 1, q + 1))
    && (forall q :: j <= q < |b| && i < |a| ==> table[i, q] == 0)
    && (forall p, q :: i < p < |a| && 0 <= q < |b| ==> table[p, q] == 0)
  }

  /** The larger of the maximum over the first `i` rows and the maximum over the first `j`
      cells of row `i`: the running maximum while row `i` is being filled. */
  function RunningMax(a: string, b: string, i: nat, j: nat): (r: nat)
    requires i < |a| && j <= |b|
    ensures r <= i + 1
    ensures j == |b| ==> r == GridMax(a, b, i + 1)
  {
    var g, w := GridMax(a, b, i), RowMax(a, b, i + 1, j);
    if w > g then w else g
  }

  /** Filling one more cell of row `i` folds that cell's value into the running maximum. */
  lemma RunningMaxStep(a: string, b: string, i: nat, j: nat)
    requires i < |a| && j < |b|
    ensures var m, s := RunningMax(a, b, i, j), SuffixLen(a, b, i + 1, j + 1);
      RunningMax(a, b, i, j + 1) == if s > m then s else m
  {
  }

  /** One iteration of the outer loop of `longestSubstr`: fills row `i` of the table left to
      right and raises the running maximum over it. */
  method FillRow(table: array2<int>, first: string, second: string, i: nat, maxIn: int)
    returns (maxLen: int)
    requires table.Length0 == |first| && table.Length1 == |second| && i < |first|
    requires FilledUpTo(table, first, second, i, 0) && maxIn == GridMax(first, second, i)
    modifies table
    ensures FilledUpTo(table, first, second, i + 1, 0)
    ensures maxLen == GridMax(first, second, i + 1)
  {
    maxLen := maxIn;
    for j := 0 to |second|
      invariant FilledUpTo(table, first, second, i, j)
      invariant maxLen == RunningMax(first, second, i, j)
    {
      if first[i] == second[j] {
        if i == 0 || j == 0 {
          table[i, j] := 1;
        } else {
          table[i, j] := table[i - 1, j - 1] + 1;
        }
        if table[i, j] > maxLen {
          maxLen := table[i, j];
        }
      }
      assert table[i, j] == SuffixLen(first, second, i + 1, j + 1);
      RunningMaxStep(first, second, i, j);
    }
  }

  /** `ComponentConverter.longestSubstr`: fills the `fl` x `sl` table row by row, keeping
      the running maximum, and returns it. */
  method LongestSubstr(first: string, second: string) returns (maxLen: int)
    ensures maxLen == Lcs(first, second)
    ensures maxLen >= 0 && IsLongestCommon(first, second, maxLen)
  {
    LcsSpec(first, second);
    if |first| == 0 || |second| == 0 {
      return 0;
    }
    maxLen := 0;
    var fl, sl := |first|, |second|;
    var table := new int[fl, sl]((i, j) => 0);
    for i := 0 to fl
      invariant FilledUpTo(table, first, second, i, 0)
      invariant maxLen == GridMax(first, second, i)
    {
      maxLen := FillRow(table, first, second, i, maxLen);
    }
  }
}
