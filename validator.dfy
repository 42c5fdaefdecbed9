/**
 * The validator `check_square`, as written and as evidently intended.
 *
 * As written, both purges of the inner loop act on `check_row`, which loses
 * every value of column i and of row i, while `check_col` stays 1..N. Each
 * index i therefore adds N plus the number of values of 1..N found in
 * neither line, and a Latin square scores N·N rather than 0.
 */
module Validator {
  import opened Lines
  import opened Grids

  /** The number of values of 1..n that do not occur in `s`. */
  ghost function Missing(n: nat, s: seq<int>): nat {
    |set v | v in Fill(n) && v !in s|
  }

  /** A line misses no value of 1..n exactly when it holds all of them. */
  lemma MissingNone(n: nat, s: seq<int>)
    ensures Missing(n, s) == 0 <==> forall v :: 1 <= v <= n ==> v in s
  {
    var absent := set v | v in Fill(n) && v !in s;
    if Missing(n, s) == 0 {
      assert absent == {};
      forall v | 1 <= v <= n ensures v in s {
        assert v in Fill(n);
        assert v !in absent;
      }
    }
    if forall v :: 1 <= v <= n ==> v in s {
      assert (set v | v in Fill(n) && v !in s) == {};
    }
  }

  /** `pool` is a distinct line holding exactly the values of 1..n that are not in `seen`. */
  ghost predicate Leaves(pool: seq<int>, n: nat, seen: seq<int>) {
    Distinct(pool) && forall v :: v in pool <==> v in Fill(n) && v !in seen
  }

  /** Purging one more value from such a pool. */
  lemma PurgeLeaves(pool: seq<int>, n: nat, seen: seq<int>, t: int)
    requires Leaves(pool, n, seen)
    ensures Leaves(Purge(pool, t), n, seen + [t])
  {
    DistinctMultiplicity(pool);
    DistinctMultiplicity(Purge(pool, t));
  }

  /** Only the values of `seen` matter, not their order or repetition. */
  lemma LeavesSameValues(pool: seq<int>, n: nat, seen: seq<int>, seen': seq<int>)
    requires Leaves(pool, n, seen)
    requires forall v :: v in seen <==> v in seen'
    ensures Leaves(pool, n, seen')
  {
  }

  /** Such a pool has Missing(n, seen) elements. */
  lemma LeavesCount(pool: seq<int>, n: nat, seen: seq<int>)
    requires Leaves(pool, n, seen)
    ensures |pool| == Missing(n, seen)
  {
    ValuesCard(pool);
    assert Values(pool) == set v | v in Fill(n) && v !in seen;
  }

  /** Sum over i < k of the values of 1..N in neither column i nor row i. */
  ghost function SharedMissing(g: Grid, k: nat): nat
    requires IsSquare(g, |g|) && k <= |g|
  {
    if k == 0 then 0 else SharedMissing(g, k - 1) + Missing(|g|, Column(g, k - 1) + g[k - 1])
  }

  /** What `check_square` returns, as written. */
  ghost function AsWrittenScore(g: Grid): int
    requires IsSquare(g, |g|)
  {
    |g| * |g| + SharedMissing(g, |g|)
  }

  /** Sum over i < k of the values of 1..N missing from column i plus those missing from row i. */
  ghost function Defects(g: Grid, k: nat): nat
    requires IsSquare(g, |g|) && k <= |g|
  {
    if k == 0 then 0 else Defects(g, k - 1) + Missing(|g|, Column(g, k - 1)) + Missing(|g|, g[k - 1])
  }

  /**
   * The inner loop of `check_square` at index i, as written: `check_row`
   * loses every value of column i and of row i, since both purges act on it.
   */
  method AsWrittenCheckRow(latin: Grid, i: nat) returns (checkRow: seq<int>)
    requires IsSquare(latin, |latin|) && i < |latin|
    ensures |checkRow| == Missing(|latin|, Column(latin, i) + latin[i])
  {
    var n := |latin|;
    checkRow := Fill(n);
    ghost var col, row := Column(latin, i), latin[i];
    assert Leaves(checkRow, n, col[..0] + row[..0]);
    for j := 0 to n
      invariant Leaves(checkRow, n, col[..j] + row[..j])
    {
      ghost var seen := col[..j] + row[..j];
      PurgeLeaves(checkRow, n, seen, col[j]);
      checkRow := Purge(checkRow, latin[j][i]);
      PurgeLeaves(checkRow, n, seen + [col[j]], row[j]);
      checkRow := Purge(checkRow, latin[i][j]);
      assert col[..j + 1] == col[..j] + [col[j]];
      assert row[..j + 1] == row[..j] + [row[j]];
      LeavesSameValues(checkRow, n, seen + [col[j]] + [row[j]], col[..j + 1] + row[..j + 1]);
    }
    assert col[..n] == col && row[..n] == row;
    LeavesCount(checkRow, n, col + row);
  }

  /**
   * `check_square` as written: N·N plus, for each i, the number of values of
   * 1..N that occur neither in column i nor in row i.
   */
  method CheckSquare(latin: Grid) returns (counter: int)
    requires IsSquare(latin, |latin|)
    ensures counter == AsWrittenScore(latin)
    ensures counter >= |latin| * |latin|
  {
    var n := |latin|;
    counter := 0;
    for i := 0 to n
      invariant counter == i * n + SharedMissing(latin, i)
    {
      var checkRow := AsWrittenCheckRow(latin, i);
      var checkCol := Fill(n);
      assert (i + 1) * n == i * n + n;
      counter := counter + |checkRow| + |checkCol|;
    }
  }

  /** On a Latin square the as-written score is exactly N·N. */
  lemma LatinSquareScore(g: Grid, n: nat)
    requires IsLatinSquare(g, n)
    ensures AsWrittenScore(g) == n * n
  {
    forall i | 0 <= i < n ensures Missing(n, Column(g, i) + g[i]) == 0 {
      RangePermutationHoldsAll(g[i], n);
      MissingNone(n, Column(g, i) + g[i]);
    }
    SharedMissingZero(g, n);
  }

  lemma {:induction false} SharedMissingZero(g: Grid, k: nat)
    requires IsSquare(g, |g|) && k <= |g|
    requires forall i :: 0 <= i < k ==> Missing(|g|, Column(g, i) + g[i]) == 0
    ensures SharedMissing(g, k) == 0
  {
    if k > 0 {
      SharedMissingZero(g, k - 1);
    }
  }

  /** So a valid square does not score 0: the one-cell Latin square [[1]] scores 1. */
  lemma AsWrittenRejectsLatinSquare()
    ensures IsLatinSquare([[1]], 1) && AsWrittenScore([[1]]) == 1
  {
    var g := [[1]];
    assert Column(g, 0) == [1];
    LatinSquareScore(g, 1);
  }

  /**
   * The inner loop of `check_square` at index i, as evidently intended:
   * `check_col` loses the values of column i and `check_row` those of row i.
   */
  method IntendedCheckLines(latin: Grid, i: nat) returns (checkCol: seq<int>, checkRow: seq<int>)
    requires IsSquare(latin, |latin|) && i < |latin|
    ensures |checkCol| == Missing(|latin|, Column(latin, i))
    ensures |checkRow| == Missing(|latin|, latin[i])
  {
    var n := |latin|;
    checkRow := Fill(n);
    checkCol := Fill(n);
    ghost var col, row := Column(latin, i), latin[i];
    for j := 0 to n
      invariant Leaves(checkCol, n, col[..j]) && Leaves(checkRow, n, row[..j])
    {
      PurgeLeaves(checkCol, n, col[..j], col[j]);
      PurgeLeaves(checkRow, n, row[..j], row[j]);
      checkCol := Purge(checkCol, latin[j][i]);
      checkRow := Purge(checkRow, latin[i][j]);
      assert col[..j + 1] == col[..j] + [col[j]];
      assert row[..j + 1] == row[..j] + [row[j]];
    }
    assert col[..n] == col && row[..n] == row;
    LeavesCount(checkCol, n, col);
    LeavesCount(checkRow, n, row);
  }

  /**
   * `check_square` as evidently intended: the number of values of 1..N
   * missing from each column plus those missing from each row, which is 0
   * exactly on a Latin square.
   */
  method CheckSquareFixed(latin: Grid) returns (counter: int)
    requires IsSquare(latin, |latin|)
    ensures counter == Defects(latin, |latin|)
    ensures counter == 0 <==> IsLatinSquare(latin, |latin|)
  {
    var n := |latin|;
    counter := 0;
    for i := 0 to n
      invariant counter == Defects(latin, i)
    {
      var checkCol, checkRow := IntendedCheckLines(latin, i);
      counter := counter + |checkRow| + |checkCol|;
    }
    DefectsZero(latin);
  }

  /** The intended score is 0 exactly when every row and every column is a permutation of 1..N. */
  lemma DefectsZero(g: Grid)
    requires IsSquare(g, |g|)
    ensures Defects(g, |g|) == 0 <==> IsLatinSquare(g, |g|)
  {
    var n := |g|;
    DefectsZeroUpTo(g, n);
    if Defects(g, n) == 0 {
      forall i | 0 <= i < n ensures IsRangePermutation(g[i], n) && IsRangePermutation(Column(g, i), n) {
        MissingNone(n, g[i]);
        MissingNone(n, Column(g, i));
        HoldsAllIsRangePermutation(g[i], n);
        HoldsAllIsRangePermutation(Column(g, i), n);
      }
    }
    if IsLatinSquare(g, n) {
      forall i | 0 <= i < n ensures Missing(n, Column(g, i)) == 0 && Missing(n, g[i]) == 0 {
        RangePermutationHoldsAll(g[i], n);
        RangePermutationHoldsAll(Column(g, i), n);
        MissingNone(n, g[i]);
        MissingNone(n, Column(g, i));
      }
    }
  }

  lemma {:induction false} DefectsZeroUpTo(g: Grid, k: nat)
    requires IsSquare(g, |g|) && k <= |g|
    ensures Defects(g, k) == 0 <==>
              forall i :: 0 <= i < k ==> Missing(|g|, Column(g, i)) == 0 && Missing(|g|, g[i]) == 0
  {
    if k > 0 {
      DefectsZeroUpTo(g, k - 1);
    }
  }
}
