/** The longest run of tokens common to two token lists, by dynamic programming over two rolling rows. */
module Lcs {
  type Token = int

  /** The lists agree on the `n` tokens at `i` and at `j`. */
  ghost predicate Common(a: seq<Token>, b: seq<Token>, i: nat, j: nat, n: nat) {
    i + n <= |a| && j + n <= |b| && a[i..i + n] == b[j..j + n]
  }

  /** `n` is the length of a longest common run: there is one of that length, and none longer. */
  ghost predicate LongestCommonRun(a: seq<Token>, b: seq<Token>, n: nat) {
    && (exists i: nat, j: nat :: Common(a, b, i, j, n))
    && (forall i: nat, j: nat, k: nat | Common(a, b, i, j, k) :: k <= n)
  }

  /** The length of the longest common run that ends before `i` and before `j`. */
  function EndingAt(a: seq<Token>, b: seq<Token>, i: nat, j: nat): (n: nat)
    requires i <= |a| && j <= |b|
    ensures n <= i && n <= j
  {
    if i == 0 || j == 0 || a[i - 1] != b[j - 1] then 0 else 1 + EndingAt(a, b, i - 1, j - 1)
  }

  lemma {:induction false} EndingIsCommon(a: seq<Token>, b: seq<Token>, i: nat, j: nat)
    requires i <= |a| && j <= |b|
    ensures var n := EndingAt(a, b, i, j); Common(a, b, i - n, j - n, n)
  {
    if i > 0 && j > 0 && a[i - 1] == b[j - 1] {
      EndingIsCommon(a, b, i - 1, j - 1);
      var n := EndingAt(a, b, i - 1, j - 1);
      assert a[i - 1 - n..i] == a[i - 1 - n..i - 1] + [a[i - 1]];
      assert b[j - 1 - n..j] == b[j - 1 - n..j - 1] + [b[j - 1]];
    }
  }

  lemma {:induction false} EndingIsLongest(a: seq<Token>, b: seq<Token>, i: nat, j: nat, k: nat)
    requires Common(a, b, i, j, k)
    ensures k <= EndingAt(a, b, i + k, j + k)
    decreases k
  {
    if k > 0 {
      assert a[i..i + k][..k - 1] == a[i..i + k - 1] && b[j..j + k][..k - 1] == b[j..j + k - 1];
      EndingIsLongest(a, b, i, j, k - 1);
      assert a[i + k - 1] == a[i..i + k][k - 1] == b[j..j + k][k - 1] == b[j + k - 1];
    }
  }

  /** `max` is reached by a pair of ends among the rows before `i` and row `i` before column `j`, and no such
      pair exceeds it. */
  ghost predicate BestSoFar(a: seq<Token>, b: seq<Token>, i: nat, j: nat, max: nat)
    requires i <= |a|
  {
    && (exists p: nat, q: nat :: p <= |a| && q <= |b| && EndingAt(a, b, p, q) == max)
    && (forall p: nat, q: nat | p < i && q <= |b| :: EndingAt(a, b, p, q) <= max)
    && (forall q: nat | q < j && q <= |b| :: EndingAt(a, b, i, q) <= max)
  }

  lemma BestAtStart(a: seq<Token>, b: seq<Token>)
    ensures BestSoFar(a, b, 0, |b| + 1, 0)
  {
    assert EndingAt(a, b, 0, 0) == 0;
  }

  lemma BestNextRow(a: seq<Token>, b: seq<Token>, i: nat, max: nat)
    requires i < |a| && BestSoFar(a, b, i, |b| + 1, max)
    ensures BestSoFar(a, b, i + 1, 1, max)
  {
    assert EndingAt(a, b, i + 1, 0) == 0;
  }

  lemma BestNextColumn(a: seq<Token>, b: seq<Token>, i: nat, j: nat, max: nat)
    requires i <= |a| && j <= |b| && BestSoFar(a, b, i, j, max)
    ensures BestSoFar(a, b, i, j + 1, if EndingAt(a, b, i, j) > max then EndingAt(a, b, i, j) else max)
  {}

  lemma BestIsLongest(a: seq<Token>, b: seq<Token>, max: nat)
    requires BestSoFar(a, b, |a|, |b| + 1, max)
    ensures LongestCommonRun(a, b, max)
  {
    var p: nat, q: nat :| p <= |a| && q <= |b| && EndingAt(a, b, p, q) == max;
    EndingIsCommon(a, b, p, q);
    forall i: nat, j: nat, k: nat | Common(a, b, i, j, k) ensures k <= max {
      EndingIsLongest(a, b, i, j, k);
    }
  }

  ghost predicate Row(a: seq<Token>, b: seq<Token>, i: nat, row: seq<nat>, n: nat)
    requires i <= |a|
  {
    |row| == |b| + 1 && n <= |row| && forall q: nat | q < n :: row[q] == EndingAt(a, b, i, q)
  }

  lemma NothingCommon(a: seq<Token>, b: seq<Token>)
    requires a == [] || b == []
    ensures LongestCommonRun(a, b, 0)
  {
    assert Common(a, b, 0, 0, 0);
  }

  lemma RowNext(a: seq<Token>, b: seq<Token>, i: nat, prev: seq<nat>, curr: seq<nat>, j: nat, n: nat)
    requires 1 <= i <= |a| && 1 <= j <= |b|
    requires Row(a, b, i - 1, prev, |b| + 1) && Row(a, b, i, curr, j)
    requires n == if a[i - 1] != b[j - 1] then 0 else if i == 1 || j == 1 then 1 else prev[j - 1] + 1
    ensures n == EndingAt(a, b, i, j) && Row(a, b, i, curr[j := n], j + 1)
  {
    assert prev[j - 1] == EndingAt(a, b, i - 1, j - 1);
  }

  lemma RowStarts(a: seq<Token>, b: seq<Token>, i: nat, row: seq<nat>)
    requires i <= |a| && |row| == |b| + 1 && row[0] == 0
    ensures Row(a, b, i, row, 1)
    ensures i == 0 && (forall q | 0 <= q < |row| :: row[q] == 0) ==> Row(a, b, 0, row, |b| + 1)
  {}

  /** `common_lcs` */
  method CommonLcs(a: seq<Token>, b: seq<Token>) returns (maxLength: nat)
    ensures LongestCommonRun(a, b, maxLength)
  {
    hide *;
    if a == [] || b == [] {
      NothingCommon(a, b);
      return 0;
    }
    var bLen := |b|;
    maxLength := 0;
    var prev := new nat[bLen + 1](_ => 0);
    var curr := new nat[bLen + 1](_ => 0);
    BestAtStart(a, b);
    RowStarts(a, b, 0, prev[..]);
    for i := 1 to |a| + 1
      invariant BestSoFar(a, b, i - 1, bLen + 1, maxLength)
      invariant Row(a, b, i - 1, prev[..], bLen + 1) && curr[0] == 0
    {
      BestNextRow(a, b, i - 1, maxLength);
      RowStarts(a, b, i, curr[..]);
      for j := 1 to bLen + 1
        invariant BestSoFar(a, b, i, j, maxLength)
        invariant Row(a, b, i - 1, prev[..], bLen + 1) && Row(a, b, i, curr[..], j) && curr[0] == 0
      {
        BestNextColumn(a, b, i, j, maxLength);
        ghost var before := curr[..];
        if a[i - 1] == b[j - 1] {
          if i == 1 || j == 1 {
            curr[j] := 1;
          } else {
            curr[j] := prev[j - 1] + 1;
          }
          RowNext(a, b, i, prev[..], before, j, curr[j]);
          if curr[j] > maxLength { maxLength := curr[j]; }
        } else {
          curr[j] := 0;
          RowNext(a, b, i, prev[..], before, j, 0);
        }
        assert curr[..] == before[j := curr[j]];
      }
      ghost var row := curr[..];
      forall q | 0 <= q < prev.Length { prev[q] := curr[q]; }
      assert prev[..] == row;
    }
    BestIsLongest(a, b, maxLength);
  }
}
