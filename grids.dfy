/**
 * The N×N integer grid that every operation takes and returns by value,
 * its row and column views, and what it means to be a Latin square.
 * The value 0 marks a cell that is not filled.
 */
module Grids {
  import opened Lines

  /** A grid, row-major: `g[r][c]` is the cell in row r and column c. */
  type Grid = seq<seq<int>>

  /** `g` has n rows of n cells each. */
  predicate IsSquare(g: Grid, n: nat) {
    |g| == n && forall r :: 0 <= r < n ==> |g[r]| == n
  }

  /** Column c of a square grid, read top to bottom. */
  function Column(g: Grid, c: nat): (col: seq<int>)
    requires IsSquare(g, |g|) && c < |g|
    ensures |col| == |g|
    ensures forall r :: 0 <= r < |g| ==> col[r] == g[r][c]
  {
    seq(|g|, r requires 0 <= r < |g| => g[r][c])
  }

  /** The first `len` cells of column c, read top to bottom. */
  function ColumnPrefix(g: Grid, c: nat, len: nat): (col: seq<int>)
    requires len <= |g| && forall r :: 0 <= r < len ==> c < |g[r]|
    ensures |col| == len
    ensures forall r :: 0 <= r < len ==> col[r] == g[r][c]
  {
    seq(len, r requires 0 <= r < len => g[r][c])
  }

  /** Every row and every column of `g` is a permutation of 1..n. */
  ghost predicate IsLatinSquare(g: Grid, n: nat) {
    IsSquare(g, n)
    && (forall r :: 0 <= r < n ==> IsRangePermutation(g[r], n))
    && (forall c :: 0 <= c < n ==> IsRangePermutation(Column(g, c), n))
  }

  /**
   * A grid under construction: the cells in the first `rows` rows and in the
   * first `cols` columns are placed (values in 1..n), every other cell is 0,
   * and no row and no column holds a placed value twice.
   */
  ghost predicate Partial(g: Grid, n: nat, rows: nat, cols: nat) {
    IsSquare(g, n)
    && (forall r, c :: 0 <= r < n && 0 <= c < n ==>
          if r < rows || c < cols then 1 <= g[r][c] <= n else g[r][c] == 0)
    && (forall r, c1, c2 :: 0 <= r < n && 0 <= c1 < c2 < n && (r < rows || c2 < cols) ==>
          g[r][c1] != g[r][c2])
    && (forall c, r1, r2 :: 0 <= c < n && 0 <= r1 < r2 < n && (r2 < rows || c < cols) ==>
          g[r1][c] != g[r2][c])
  }

  /** A grid whose every cell is placed is a Latin square. */
  lemma PartialComplete(g: Grid, n: nat)
    requires Partial(g, n, n, n)
    ensures IsLatinSquare(g, n)
  {
    forall c | 0 <= c < n ensures IsRangePermutation(Column(g, c), n) {
      var col := Column(g, c);
      forall r1, r2 | 0 <= r1 < r2 < n ensures col[r1] != col[r2] {
        assert g[r1][c] != g[r2][c];
      }
    }
  }

  /** The all-zero n×n grid, where construction starts. */
  function Zeros(n: nat): (g: Grid)
    ensures Partial(g, n, 0, 0)
  {
    seq(n, r => seq(n, c => 0))
  }

  /**
   * `g` with column c replaced, from row `from` down, by `line`: cell (r, c)
   * for r >= from becomes line[r - from].
   */
  function WithColumn(g: Grid, n: nat, c: nat, from: nat, line: seq<int>): (h: Grid)
    requires IsSquare(g, n) && c < n && from <= n && |line| == n - from
    ensures IsSquare(h, n)
    ensures forall r, k :: 0 <= r < n && 0 <= k < n ==>
              h[r][k] == if k == c && r >= from then line[r - from] else g[r][k]
  {
    seq(n, r requires 0 <= r < n => if r >= from then g[r][c := line[r - from]] else g[r])
  }

  /**
   * `g` with row r replaced, from column `from` rightwards, by `line`: cell (r, k)
   * for k >= from becomes line[k - from].
   */
  function WithRow(g: Grid, n: nat, r: nat, from: nat, line: seq<int>): (h: Grid)
    requires IsSquare(g, n) && r < n && from <= n && |line| == n - from
    ensures IsSquare(h, n)
    ensures forall j, k :: 0 <= j < n && 0 <= k < n ==>
              h[j][k] == if j == r && k >= from then line[k - from] else g[j][k]
  {
    g[r := g[r][..from] + line]
  }

  /**
   * Filling column c below the first `from` rows keeps the construction
   * invariant, provided the new values are distinct, lie in 1..n, avoid the
   * values already placed in column c, and clash with no placed value in
   * their own rows.
   */
  lemma ColumnStep(g: Grid, n: nat, from: nat, c: nat, line: seq<int>)
    requires Partial(g, n, from, c) && c < n && c <= from <= n
    requires |line| == n - from && Distinct(line)
    requires forall t :: 0 <= t < |line| ==> 1 <= line[t] <= n
    requires forall t, r :: 0 <= t < |line| && 0 <= r < from ==> line[t] != g[r][c]
    requires forall r, k :: from <= r < n && 0 <= k < c ==> g[r][k] != line[r - from]
    ensures Partial(WithColumn(g, n, c, from, line), n, from, c + 1)
  {
    var h := WithColumn(g, n, c, from, line);
    forall r, c1, c2 | 0 <= r < n && 0 <= c1 < c2 < n && (r < from || c2 < c + 1)
      ensures h[r][c1] != h[r][c2]
    {
      if r >= from && c2 == c {
        assert h[r][c1] == g[r][c1];
      }
    }
    forall k, r1, r2 | 0 <= k < n && 0 <= r1 < r2 < n && (r2 < from || k < c + 1)
      ensures h[r1][k] != h[r2][k]
    {
      if k == c && r2 >= from {
        if r1 >= from {
          assert line[r1 - from] != line[r2 - from];
        } else {
          assert h[r1][k] == g[r1][c];
        }
      }
    }
  }

  /**
   * Filling row r right of the first `from` columns keeps the construction
   * invariant, provided the new values are distinct, lie in 1..n, avoid the
   * values already placed in row r, and clash with no placed value in their
   * own columns.
   */
  lemma RowStep(g: Grid, n: nat, r: nat, from: nat, line: seq<int>)
    requires Partial(g, n, r, from) && r < n && r <= from <= n
    requires |line| == n - from && Distinct(line)
    requires forall t :: 0 <= t < |line| ==> 1 <= line[t] <= n
    requires forall t, k :: 0 <= t < |line| && 0 <= k < from ==> line[t] != g[r][k]
    requires forall j, k :: 0 <= j < r && from <= k < n ==> g[j][k] != line[k - from]
    ensures Partial(WithRow(g, n, r, from, line), n, r + 1, from)
  {
    var h := WithRow(g, n, r, from, line);
    forall j, c1, c2 | 0 <= j < n && 0 <= c1 < c2 < n && (j < r + 1 || c2 < from)
      ensures h[j][c1] != h[j][c2]
    {
      if j == r && c2 >= from {
        if c1 >= from {
          assert line[c1 - from] != line[c2 - from];
        } else {
          assert h[j][c1] == g[r][c1];
        }
      }
    }
    forall k, r1, r2 | 0 <= k < n && 0 <= r1 < r2 < n && (r2 < r + 1 || k < from)
      ensures h[r1][k] != h[r2][k]
    {
      if r2 == r && k >= from {
        assert h[r1][k] == g[r1][k];
      }
    }
  }
}
