/**
 * Construction of a Latin square (`generate_square`, `generate_latin_square`).
 *
 * Row 0 is a shuffled 1..N and column 0 a shuffled 1..N without the corner
 * value. Then, for i = 1..N-1, column i (rows i..N-1) and row i (columns
 * i+1..N-1) are each filled from a pool of the values still missing in that
 * line, by shuffling the pool until no value repeats one already placed in a
 * crossing row or column. A step that needs too many shuffles abandons the
 * whole attempt, which then yields the empty grid.
 *
 * std::shuffle is an oracle: the k-th shuffle call of a run turns the line
 * into `shuffle(line, k)`, an arbitrary rearrangement of it.
 */
module Generator {
  import opened Lines
  import opened Grids
  import Validator

  /** The k-th call of std::shuffle turns `line` into `shuffle(line, k)`. */
  type Shuffler = (seq<int>, nat) -> seq<int>

  /** Whatever it returns, std::shuffle only rearranges the line. */
  ghost predicate IsShuffler(shuffle: Shuffler) {
    forall line: seq<int>, k: nat :: multiset(shuffle(line, k)) == multiset(line)
  }

  /** 2 to the power e. */
  function Pow2(e: nat): (r: nat)
    ensures r >= 1
  {
    if e == 0 then 1 else 2 * Pow2(e - 1)
  }

  /**
   * The retry budget of the column and row steps at diagonal index i:
   * `1 << (N - i - 1)`, read as a mathematical power of two. Every
   * index allows at least one retry, and only the last allows exactly one.
   */
  function RetryBound(n: nat, i: nat): (r: nat)
    requires i < n
    ensures r >= 1 && (r == 1 <==> i == n - 1)
  {
    Pow2(n - i - 1)
  }

  /** A shuffle keeps the length of the line. */
  lemma ShuffleKeepsLength(shuffle: Shuffler, line: seq<int>, k: nat)
    requires IsShuffler(shuffle)
    ensures |shuffle(line, k)| == |line|
  {
    assert |shuffle(line, k)| == |multiset(shuffle(line, k))| == |multiset(line)|;
  }

  /** The line after t successive in-place shuffles, the first of them call number `start`. */
  ghost function Reshuffled(shuffle: Shuffler, line: seq<int>, start: nat, t: nat): (r: seq<int>)
    ensures IsShuffler(shuffle) ==> multiset(r) == multiset(line)
  {
    if t == 0 then line else shuffle(Reshuffled(shuffle, line, start, t - 1), start + t - 1)
  }

  /** The pool of the column step at i: 1..n without the values above the diagonal in column i. */
  function ColumnPool(g: Grid, n: nat, i: nat): seq<int>
    requires IsSquare(g, n) && i < n
  {
    PurgeAll(Fill(n), ColumnPrefix(g, i, i))
  }

  /** The pool of the row step at i: 1..n without the values in row i up to the diagonal. */
  function RowPool(g: Grid, n: nat, i: nat): seq<int>
    requires IsSquare(g, n) && i < n
  {
    PurgeAll(Fill(n), g[i][..i + 1])
  }

  /** Putting `line` into column i at rows i..n-1 would repeat a value of columns 0..i-1 in its row. */
  ghost predicate ColumnClash(g: Grid, n: nat, i: nat, line: seq<int>)
    requires IsSquare(g, n) && i < n
  {
    exists j, k :: i <= j < n && 0 <= k < i && j - i < |line| && g[j][k] == line[j - i]
  }

  /** Putting `line` into row i at columns i+1..n-1 would repeat a value of rows 0..i in its column. */
  ghost predicate RowClash(g: Grid, n: nat, i: nat, line: seq<int>)
    requires IsSquare(g, n) && i < n
  {
    exists j, k :: 0 <= j <= i && i + 1 <= k < n && k - i - 1 < |line| && g[j][k] == line[k - i - 1]
  }

  /** A count-th shuffle that clashes too extends the rejected run by one. */
  lemma ColumnRejectsExtend(g: Grid, n: nat, i: nat, shuffle: Shuffler, pool: seq<int>, start: nat, count: nat)
    requires IsSquare(g, n) && i < n
    requires ColumnRejects(g, n, i, shuffle, pool, start, count)
    requires count > 0 ==> ColumnClash(g, n, i, Reshuffled(shuffle, pool, start, count))
    ensures ColumnRejects(g, n, i, shuffle, pool, start, count + 1)
  {
  }

  /** Every shuffle of `pool` before the count-th, starting at call `start`, clashes in column i. */
  ghost predicate ColumnRejects(g: Grid, n: nat, i: nat, shuffle: Shuffler, pool: seq<int>, start: nat, count: nat)
    requires IsSquare(g, n) && i < n
  {
    forall t :: 1 <= t < count ==> ColumnClash(g, n, i, Reshuffled(shuffle, pool, start, t))
  }

  /** A count-th shuffle that clashes too extends the rejected run by one. */
  lemma RowRejectsExtend(g: Grid, n: nat, i: nat, shuffle: Shuffler, pool: seq<int>, start: nat, count: nat)
    requires IsSquare(g, n) && i < n
    requires RowRejects(g, n, i, shuffle, pool, start, count)
    requires count > 0 ==> RowClash(g, n, i, Reshuffled(shuffle, pool, start, count))
    ensures RowRejects(g, n, i, shuffle, pool, start, count + 1)
  {
  }

  /** Every shuffle of `pool` before the count-th, starting at call `start`, clashes in row i. */
  ghost predicate RowRejects(g: Grid, n: nat, i: nat, shuffle: Shuffler, pool: seq<int>, start: nat, count: nat)
    requires IsSquare(g, n) && i < n
  {
    forall t :: 1 <= t < count ==> RowClash(g, n, i, Reshuffled(shuffle, pool, start, t))
  }

  /**
   * A rearrangement of the pool left by purging distinct values of 1..n from
   * 1..n: its values are distinct, lie in 1..n and avoid every purged value.
   */
  lemma PoolLine(n: nat, targets: seq<int>, line: seq<int>)
    requires Distinct(targets)
    requires forall k :: 0 <= k < |targets| ==> 1 <= targets[k] <= n
    requires multiset(line) == multiset(PurgeAll(Fill(n), targets))
    ensures |line| == n - |targets| && Distinct(line)
    ensures forall t :: 0 <= t < |line| ==> 1 <= line[t] <= n && line[t] !in targets
  {
    var pool := PurgeAll(Fill(n), targets);
    PurgeAllDistinct(Fill(n), targets);
    DistinctRearranged(pool, line);
    assert |line| == |multiset(line)| == |multiset(pool)| == |pool|;
    forall t | 0 <= t < |line| ensures 1 <= line[t] <= n && line[t] !in targets {
      assert line[t] in multiset(line);
      assert line[t] in pool;
    }
  }

  /** The nested conflict loops of the column step (source lines 61-66). */
  method ColumnConflict(g: Grid, n: nat, i: nat, line: seq<int>) returns (flag: bool)
    requires IsSquare(g, n) && 1 <= i < n && |line| >= n - i
    ensures flag == ColumnClash(g, n, i, line)
  {
    flag := false;
    var j := i;
    while j < n && !flag
      invariant i <= j <= n
      invariant flag <==> exists jj, k :: i <= jj < j && 0 <= k < i && g[jj][k] == line[jj - i]
    {
      var k := 0;
      while k < i && !flag
        invariant 0 <= k <= i
        invariant flag <==> exists kk :: 0 <= kk < k && g[j][kk] == line[j - i]
      {
        flag := g[j][k] == line[j - i];
        k := k + 1;
      }
      j := j + 1;
    }
  }

  /** The nested conflict loops of the row step (source lines 85-90). */
  method RowConflict(g: Grid, n: nat, i: nat, line: seq<int>) returns (flag: bool)
    requires IsSquare(g, n) && 1 <= i < n && |line| >= n - i - 1
    ensures flag == RowClash(g, n, i, line)
  {
    flag := false;
    var j := 0;
    while j < i + 1 && !flag
      invariant 0 <= j <= i + 1
      invariant flag <==> exists jj, k :: 0 <= jj < j && i + 1 <= k < n && g[jj][k] == line[k - i - 1]
    {
      var k := i + 1;
      while k < n && !flag
        invariant i + 1 <= k <= n
        invariant flag <==> exists kk :: i + 1 <= kk < k && g[j][kk] == line[kk - i - 1]
      {
        flag := g[j][k] == line[k - i - 1];
        k := k + 1;
      }
      j := j + 1;
    }
  }

  /** The purge loop that builds a pool: 1..n without each of `targets` in turn. */
  method BuildPool(n: nat, targets: seq<int>) returns (pool: seq<int>)
    ensures pool == PurgeAll(Fill(n), targets)
  {
    pool := Fill(n);
    for j := 0 to |targets|
      invariant pool == PurgeAll(Fill(n), targets[..j])
    {
      assert targets[..j + 1][..j] == targets[..j];
      pool := Purge(pool, targets[j]);
    }
    assert targets[..|targets|] == targets;
  }

  /**
   * The do-while loop of the column step at diagonal index i (source lines
   * 57-68). The pool is shuffled in place until a shuffle clashes with no
   * row; a shuffle numbered beyond RetryBound + 1 ends the step in failure
   * even when it would have fitted, so at most RetryBound + 2 shuffles are
   * made. On success `line` is the first shuffle that fits.
   */
  method RetryColumn(g: Grid, n: nat, i: nat, pool: seq<int>, shuffle: Shuffler, calls0: nat)
      returns (ok: bool, line: seq<int>, calls: nat)
    requires IsSquare(g, n) && 1 <= i < n && |pool| == n - i && IsShuffler(shuffle)
    ensures calls0 < calls <= calls0 + RetryBound(n, i) + 2
    ensures ok <==> calls <= calls0 + RetryBound(n, i) + 1
    ensures line == Reshuffled(shuffle, pool, calls0, calls - calls0)
    ensures ColumnRejects(g, n, i, shuffle, pool, calls0, calls - calls0)
    ensures ok ==> !ColumnClash(g, n, i, line)
  {
    var bound := RetryBound(n, i);
    line := pool;
    var flag := true;
    var counter := 0;
    calls := calls0;
    while flag
      invariant 0 <= counter <= bound + 1 && calls == calls0 + counter
      invariant line == Reshuffled(shuffle, pool, calls0, counter) && |line| == |pool|
      invariant counter == 0 ==> flag
      invariant counter > 0 ==> flag == ColumnClash(g, n, i, line)
      invariant ColumnRejects(g, n, i, shuffle, pool, calls0, counter)
      decreases bound + 1 - counter
    {
      ColumnRejectsExtend(g, n, i, shuffle, pool, calls0, counter);
      ShuffleKeepsLength(shuffle, line, calls);
      line := shuffle(line, calls);
      calls := calls + 1;
      flag := ColumnConflict(g, n, i, line);
      var exhausted := counter > bound;
      counter := counter + 1;
      if exhausted {
        return false, line, calls;
      }
    }
    ok := true;
  }

  /** The do-while loop of the row step at diagonal index i (source lines 81-93), as RetryColumn. */
  method RetryRow(g: Grid, n: nat, i: nat, pool: seq<int>, shuffle: Shuffler, calls0: nat)
      returns (ok: bool, line: seq<int>, calls: nat)
    requires IsSquare(g, n) && 1 <= i < n && |pool| == n - i - 1 && IsShuffler(shuffle)
    ensures calls0 < calls <= calls0 + RetryBound(n, i) + 2
    ensures ok <==> calls <= calls0 + RetryBound(n, i) + 1
    ensures line == Reshuffled(shuffle, pool, calls0, calls - calls0)
    ensures RowRejects(g, n, i, shuffle, pool, calls0, calls - calls0)
    ensures ok ==> !RowClash(g, n, i, line)
  {
    var bound := RetryBound(n, i);
    line := pool;
    var flag := true;
    var counter := 0;
    calls := calls0;
    while flag
      invariant 0 <= counter <= bound + 1 && calls == calls0 + counter
      invariant line == Reshuffled(shuffle, pool, calls0, counter) && |line| == |pool|
      invariant counter == 0 ==> flag
      invariant counter > 0 ==> flag == RowClash(g, n, i, line)
      invariant RowRejects(g, n, i, shuffle, pool, calls0, counter)
      decreases bound + 1 - counter
    {
      RowRejectsExtend(g, n, i, shuffle, pool, calls0, counter);
      ShuffleKeepsLength(shuffle, line, calls);
      line := shuffle(line, calls);
      calls := calls + 1;
      flag := RowConflict(g, n, i, line);
      var exhausted := counter > bound;
      counter := counter + 1;
      if exhausted {
        return false, line, calls;
      }
    }
    ok := true;
  }

  /** The loop that copies `line` into column c from row `from` down. */
  method WriteColumn(g: Grid, n: nat, c: nat, from: nat, line: seq<int>) returns (h: Grid)
    requires IsSquare(g, n) && c < n && from <= n && |line| == n - from
    ensures h == WithColumn(g, n, c, from, line)
  {
    h := g;
    for j := from to n
      invariant IsSquare(h, n)
      invariant forall r, k :: 0 <= r < n && 0 <= k < n ==>
                  h[r][k] == if k == c && from <= r < j then line[r - from] else g[r][k]
    {
      h := h[j := h[j][c := line[j - from]]];
    }
    ghost var w := WithColumn(g, n, c, from, line);
    forall r | 0 <= r < n ensures h[r] == w[r] {
      assert forall k :: 0 <= k < n ==> h[r][k] == w[r][k];
    }
  }

  /** The loop that copies `line` into row r from column `from` rightwards. */
  method WriteRow(g: Grid, n: nat, r: nat, from: nat, line: seq<int>) returns (h: Grid)
    requires IsSquare(g, n) && r < n && from <= n && |line| == n - from
    ensures h == WithRow(g, n, r, from, line)
  {
    h := g;
    for k := from to n
      invariant IsSquare(h, n)
      invariant forall j, c :: 0 <= j < n && 0 <= c < n ==>
                  h[j][c] == if j == r && from <= c < k then line[c - from] else g[j][c]
    {
      h := h[r := h[r][k := line[k - from]]];
    }
    ghost var w := WithRow(g, n, r, from, line);
    forall j | 0 <= j < n ensures h[j] == w[j] {
      assert forall c :: 0 <= c < n ==> h[j][c] == w[j][c];
    }
  }

  /**
   * The column step at diagonal index i (source lines 50-72): on success
   * column i, from row i down, holds the first fitting shuffle of the pool of
   * values missing from column i, and the construction invariant extends to
   * column i.
   */
  method FillColumn(g: Grid, n: nat, i: nat, shuffle: Shuffler, calls0: nat)
      returns (ok: bool, h: Grid, calls: nat)
    requires Partial(g, n, i, i) && 1 <= i < n && IsShuffler(shuffle)
    ensures calls0 < calls <= calls0 + RetryBound(n, i) + 2
    ensures ok <==> calls <= calls0 + RetryBound(n, i) + 1
    ensures ColumnRejects(g, n, i, shuffle, ColumnPool(g, n, i), calls0, calls - calls0)
    ensures ok ==> Fits(g, n, i, Reshuffled(shuffle, ColumnPool(g, n, i), calls0, calls - calls0))
    ensures ok ==> h == WithColumn(g, n, i, i, Reshuffled(shuffle, ColumnPool(g, n, i), calls0, calls - calls0))
    ensures ok ==> Partial(h, n, i, i + 1)
    ensures !ok ==> h == []
  {
    var above := ColumnPrefix(g, i, i);
    ColumnPrefixDistinct(g, n, i);
    var pool := BuildPool(n, above);
    PoolLine(n, above, pool);
    var line;
    ok, line, calls := RetryColumn(g, n, i, pool, shuffle, calls0);
    if !ok {
      return false, [], calls;
    }
    h := WriteColumn(g, n, i, i, line);
    ColumnFitStep(g, n, i, line);
  }

  /** A rearrangement of the column pool that clashes with no row extends the construction to column i. */
  lemma ColumnFitStep(g: Grid, n: nat, i: nat, line: seq<int>)
    requires Partial(g, n, i, i) && 1 <= i < n
    requires multiset(line) == multiset(ColumnPool(g, n, i)) && !ColumnClash(g, n, i, line)
    ensures Fits(g, n, i, line)
    ensures Partial(WithColumn(g, n, i, i, line), n, i, i + 1)
  {
    var above := ColumnPrefix(g, i, i);
    ColumnPrefixDistinct(g, n, i);
    PoolLine(n, above, line);
    forall r, k | i <= r < n && 0 <= k < i ensures g[r][k] != line[r - i] {
      assert r - i < |line|;
    }
    ColumnStep(g, n, i, i, line);
  }

  /** `line` can go into column i from row i down: right length, no clash with any row. */
  ghost predicate Fits(g: Grid, n: nat, i: nat, line: seq<int>)
    requires IsSquare(g, n) && i < n
  {
    |line| == n - i && !ColumnClash(g, n, i, line)
  }

  /** `line` can go into row i right of the diagonal: right length, no clash with any column. */
  ghost predicate FitsRow(g: Grid, n: nat, i: nat, line: seq<int>)
    requires IsSquare(g, n) && i < n
  {
    |line| == n - i - 1 && !RowClash(g, n, i, line)
  }

  /** The values above the diagonal in column i are distinct values of 1..n. */
  lemma ColumnPrefixDistinct(g: Grid, n: nat, i: nat)
    requires Partial(g, n, i, i) && i < n
    ensures Distinct(ColumnPrefix(g, i, i))
    ensures forall k :: 0 <= k < i ==> 1 <= ColumnPrefix(g, i, i)[k] <= n
  {
    var above := ColumnPrefix(g, i, i);
    forall a, b | 0 <= a < b < i ensures above[a] != above[b] {
      assert g[a][i] != g[b][i];
    }
  }

  /** The values of row i up to the diagonal are distinct values of 1..n. */
  lemma RowPrefixDistinct(g: Grid, n: nat, i: nat)
    requires Partial(g, n, i, i + 1) && i < n
    ensures Distinct(g[i][..i + 1])
    ensures forall k :: 0 <= k < i + 1 ==> 1 <= g[i][k] <= n
  {
    var left := g[i][..i + 1];
    forall a, b | 0 <= a < b < i + 1 ensures left[a] != left[b] {
      assert g[i][a] != g[i][b];
    }
  }

  /**
   * The row step at diagonal index i (source lines 74-97): on success row i,
   * right of the diagonal, holds the first fitting shuffle of the pool of
   * values missing from row i, and the construction invariant extends to
   * row i.
   */
  method FillRow(g: Grid, n: nat, i: nat, shuffle: Shuffler, calls0: nat)
      returns (ok: bool, h: Grid, calls: nat)
    requires Partial(g, n, i, i + 1) && 1 <= i < n && IsShuffler(shuffle)
    ensures calls0 < calls <= calls0 + RetryBound(n, i) + 2
    ensures ok <==> calls <= calls0 + RetryBound(n, i) + 1
    ensures RowRejects(g, n, i, shuffle, RowPool(g, n, i), calls0, calls - calls0)
    ensures ok ==> FitsRow(g, n, i, Reshuffled(shuffle, RowPool(g, n, i), calls0, calls - calls0))
    ensures ok ==> h == WithRow(g, n, i, i + 1, Reshuffled(shuffle, RowPool(g, n, i), calls0, calls - calls0))
    ensures ok ==> Partial(h, n, i + 1, i + 1)
    ensures !ok ==> h == []
  {
    var left := g[i][..i + 1];
    RowPrefixDistinct(g, n, i);
    var pool := BuildPool(n, left);
    PoolLine(n, left, pool);
    var line;
    ok, line, calls := RetryRow(g, n, i, pool, shuffle, calls0);
    if !ok {
      return false, [], calls;
    }
    h := WriteRow(g, n, i, i + 1, line);
    RowFitStep(g, n, i, line);
  }

  /** A rearrangement of the row pool that clashes with no column extends the construction to row i. */
  lemma RowFitStep(g: Grid, n: nat, i: nat, line: seq<int>)
    requires Partial(g, n, i, i + 1) && 1 <= i < n
    requires multiset(line) == multiset(RowPool(g, n, i)) && !RowClash(g, n, i, line)
    ensures FitsRow(g, n, i, line)
    ensures Partial(WithRow(g, n, i, i + 1, line), n, i + 1, i + 1)
  {
    RowLineAvoidsRow(g, n, i, line);
    RowLineAvoidsColumns(g, n, i, line);
    RowStep(g, n, i, i + 1, line);
  }

  /** A rearrangement of the row pool is a distinct line of 1..n avoiding row i up to the diagonal. */
  lemma RowLineAvoidsRow(g: Grid, n: nat, i: nat, line: seq<int>)
    requires Partial(g, n, i, i + 1) && 1 <= i < n
    requires multiset(line) == multiset(RowPool(g, n, i))
    ensures |line| == n - (i + 1) && Distinct(line)
    ensures forall t :: 0 <= t < |line| ==> 1 <= line[t] <= n
    ensures forall t, k :: 0 <= t < |line| && 0 <= k < i + 1 ==> line[t] != g[i][k]
  {
    var left := g[i][..i + 1];
    RowPrefixDistinct(g, n, i);
    PoolLine(n, left, line);
    forall t, k | 0 <= t < |line| && 0 <= k < i + 1 ensures line[t] != g[i][k] {
      assert g[i][k] == left[k];
    }
  }

  /** A row line that clashes with no column repeats no value of rows 0..i-1 in its column. */
  lemma RowLineAvoidsColumns(g: Grid, n: nat, i: nat, line: seq<int>)
    requires IsSquare(g, n) && 1 <= i < n && |line| == n - i - 1
    requires !RowClash(g, n, i, line)
    ensures forall j, k :: 0 <= j < i && i + 1 <= k < n ==> g[j][k] != line[k - (i + 1)]
  {
  }

  /**
   * Row 0 of `g` is `row0` and column 0 below the corner is `col0`: the two
   * lines that the diagonal steps never touch.
   */
  ghost predicate HasBorder(g: Grid, n: nat, row0: seq<int>, col0: seq<int>) {
    IsSquare(g, n) && n >= 1 && |col0| == n - 1 && g[0] == row0
    && forall r :: 1 <= r < n ==> g[r][0] == col0[r - 1]
  }

  /** A column step right of column 0 keeps the border. */
  lemma ColumnStepKeepsBorder(g: Grid, n: nat, i: nat, line: seq<int>, row0: seq<int>, col0: seq<int>)
    requires HasBorder(g, n, row0, col0) && 1 <= i < n && |line| == n - i
    ensures HasBorder(WithColumn(g, n, i, i, line), n, row0, col0)
  {
    var h := WithColumn(g, n, i, i, line);
    forall r | 1 <= r < n ensures h[r][0] == col0[r - 1] {
      assert h[r][0] == g[r][0];
    }
  }

  /** A row step below row 0 keeps the border. */
  lemma RowStepKeepsBorder(g: Grid, n: nat, i: nat, line: seq<int>, row0: seq<int>, col0: seq<int>)
    requires HasBorder(g, n, row0, col0) && 1 <= i < n && |line| == n - i - 1
    ensures HasBorder(WithRow(g, n, i, i + 1, line), n, row0, col0)
  {
    var h := WithRow(g, n, i, i + 1, line);
    forall r | 1 <= r < n ensures h[r][0] == col0[r - 1] {
      assert h[r][0] == g[r][0];
    }
  }

  /** Row 0 of `generate_square` (source lines 33-36): the first shuffle of 1..N, on an all-zero grid. */
  method FillFirstRow(n: nat, shuffle: Shuffler, calls0: nat) returns (g: Grid)
    requires n >= 1 && IsShuffler(shuffle)
    ensures Partial(g, n, 1, 0)
    ensures g == Zeros(n)[0 := shuffle(Fill(n), calls0)]
  {
    var zeros := Zeros(n);
    g := zeros[0 := Fill(n)];
    g := g[0 := shuffle(g[0], calls0)];
    assert g == zeros[0 := g[0]];
    FirstRowStep(n, g[0]);
  }

  /** An all-zero grid whose row 0 is a rearrangement of 1..n is under construction, with row 0 placed. */
  lemma FirstRowStep(n: nat, row0: seq<int>)
    requires n >= 1 && multiset(row0) == multiset(Fill(n))
    ensures Partial(Zeros(n)[0 := row0], n, 1, 0)
  {
    var g := Zeros(n)[0 := row0];
    PoolLine(n, [], row0);
    forall r, c | 0 <= r < n && 0 <= c < n ensures g[r][c] == if r == 0 then row0[c] else 0 {
    }
  }

  /**
   * Column 0 of `generate_square` (source lines 38-46): below the corner, a
   * shuffle of 1..N without the corner value.
   */
  method FillFirstColumn(g: Grid, n: nat, shuffle: Shuffler, calls0: nat) returns (h: Grid)
    requires Partial(g, n, 1, 0) && n >= 1 && IsShuffler(shuffle)
    ensures Partial(h, n, 1, 1)
    ensures HasBorder(h, n, g[0], shuffle(Purge(Fill(n), g[0][0]), calls0))
    ensures h == WithColumn(g, n, 0, 1, shuffle(Purge(Fill(n), g[0][0]), calls0))
  {
    var line := Fill(n);
    line := Purge(line, g[0][0]);
    line := shuffle(line, calls0);
    FirstColumnStep(g, n, line);
    h := WriteColumn(g, n, 0, 1, line);
    assert h[0] == g[0];
  }

  /** A rearrangement of 1..n without the corner value, put below the corner, extends the construction to column 0. */
  lemma FirstColumnStep(g: Grid, n: nat, line: seq<int>)
    requires Partial(g, n, 1, 0) && n >= 1
    requires multiset(line) == multiset(Purge(Fill(n), g[0][0]))
    ensures |line| == n - 1
    ensures Partial(WithColumn(g, n, 0, 1, line), n, 1, 1)
  {
    assert [g[0][0]][..0] == [];
    PoolLine(n, [g[0][0]], line);
    forall t, r | 0 <= t < |line| && 0 <= r < 1 ensures line[t] != g[r][0] {
      assert line[t] !in [g[0][0]];
    }
    ColumnStep(g, n, 1, 0, line);
  }

  /**
   * The number of shuffles the column step at i (source lines 50-72) makes
   * when the t-th is the next to try: the first count from t on whose
   * shuffle clashes with no row, or RetryBound(n, i) + 2 when the allowed
   * RetryBound(n, i) + 1 shuffles all clash.
   */
  ghost function ColumnFit(g: Grid, n: nat, i: nat, shuffle: Shuffler, start: nat, t: nat): (r: nat)
    requires IsSquare(g, n) && 1 <= i < n && 1 <= t <= RetryBound(n, i) + 2
    ensures t <= r <= RetryBound(n, i) + 2
    ensures forall u :: t <= u < r ==> ColumnClash(g, n, i, Reshuffled(shuffle, ColumnPool(g, n, i), start, u))
    ensures r <= RetryBound(n, i) + 1 ==> !ColumnClash(g, n, i, Reshuffled(shuffle, ColumnPool(g, n, i), start, r))
    decreases RetryBound(n, i) + 2 - t
  {
    if t == RetryBound(n, i) + 2 || !ColumnClash(g, n, i, Reshuffled(shuffle, ColumnPool(g, n, i), start, t)) then t
    else ColumnFit(g, n, i, shuffle, start, t + 1)
  }

  /** The same for the row step at i (source lines 74-97). */
  ghost function RowFit(g: Grid, n: nat, i: nat, shuffle: Shuffler, start: nat, t: nat): (r: nat)
    requires IsSquare(g, n) && 1 <= i < n && 1 <= t <= RetryBound(n, i) + 2
    ensures t <= r <= RetryBound(n, i) + 2
    ensures forall u :: t <= u < r ==> RowClash(g, n, i, Reshuffled(shuffle, RowPool(g, n, i), start, u))
    ensures r <= RetryBound(n, i) + 1 ==> !RowClash(g, n, i, Reshuffled(shuffle, RowPool(g, n, i), start, r))
    decreases RetryBound(n, i) + 2 - t
  {
    if t == RetryBound(n, i) + 2 || !RowClash(g, n, i, Reshuffled(shuffle, RowPool(g, n, i), start, t)) then t
    else RowFit(g, n, i, shuffle, start, t + 1)
  }

  /** A count whose earlier shuffles all clash, and whose own shuffle fits unless it is the last, is the one ColumnFit finds. */
  lemma ColumnFitIs(g: Grid, n: nat, i: nat, shuffle: Shuffler, start: nat, count: nat)
    requires IsSquare(g, n) && 1 <= i < n && 1 <= count <= RetryBound(n, i) + 2
    requires ColumnRejects(g, n, i, shuffle, ColumnPool(g, n, i), start, count)
    requires count <= RetryBound(n, i) + 1 ==> !ColumnClash(g, n, i, Reshuffled(shuffle, ColumnPool(g, n, i), start, count))
    ensures ColumnFit(g, n, i, shuffle, start, 1) == count
  {
    var r := ColumnFit(g, n, i, shuffle, start, 1);
    assert r >= count;
  }

  /** The same for RowFit. */
  lemma RowFitIs(g: Grid, n: nat, i: nat, shuffle: Shuffler, start: nat, count: nat)
    requires IsSquare(g, n) && 1 <= i < n && 1 <= count <= RetryBound(n, i) + 2
    requires RowRejects(g, n, i, shuffle, RowPool(g, n, i), start, count)
    requires count <= RetryBound(n, i) + 1 ==> !RowClash(g, n, i, Reshuffled(shuffle, RowPool(g, n, i), start, count))
    ensures RowFit(g, n, i, shuffle, start, 1) == count
  {
    var r := RowFit(g, n, i, shuffle, start, 1);
    assert r >= count;
  }

  /**
   * The column step at i as a function of the grid and the call count: the
   * grid with the first fitting shuffle in column i and the call count
   * after the step, or the empty grid when the step used up its shuffles.
   */
  ghost function ColumnPass(g: Grid, n: nat, i: nat, shuffle: Shuffler, start: nat): (r: (Grid, nat))
    requires Partial(g, n, i, i) && 1 <= i < n && IsShuffler(shuffle)
    ensures start < r.1
    ensures r.0 != [] ==> Partial(r.0, n, i, i + 1)
  {
    var c := ColumnFit(g, n, i, shuffle, start, 1);
    if c == RetryBound(n, i) + 2 then ([], start + c)
    else
      var column := Reshuffled(shuffle, ColumnPool(g, n, i), start, c);
      ColumnFitStep(g, n, i, column);
      (WithColumn(g, n, i, i, column), start + c)
  }

  /** The same for the row step at i, which writes row i right of the diagonal. */
  ghost function RowPass(g: Grid, n: nat, i: nat, shuffle: Shuffler, start: nat): (r: (Grid, nat))
    requires Partial(g, n, i, i + 1) && 1 <= i < n && IsShuffler(shuffle)
    ensures start < r.1
    ensures r.0 != [] ==> Partial(r.0, n, i + 1, i + 1)
  {
    var c := RowFit(g, n, i, shuffle, start, 1);
    if c == RetryBound(n, i) + 2 then ([], start + c)
    else
      var row := Reshuffled(shuffle, RowPool(g, n, i), start, c);
      RowFitStep(g, n, i, row);
      (WithRow(g, n, i, i + 1, row), start + c)
  }

  /** The outcome of FillColumn, as its contract states it, is what ColumnPass does. */
  lemma ColumnPassOf(g: Grid, n: nat, i: nat, shuffle: Shuffler, start: nat, ok: bool, h: Grid, calls: nat)
    requires Partial(g, n, i, i) && 1 <= i < n && IsShuffler(shuffle)
    requires start < calls <= start + RetryBound(n, i) + 2
    requires ok <==> calls <= start + RetryBound(n, i) + 1
    requires ColumnRejects(g, n, i, shuffle, ColumnPool(g, n, i), start, calls - start)
    requires ok ==> Fits(g, n, i, Reshuffled(shuffle, ColumnPool(g, n, i), start, calls - start))
    requires ok ==> h == WithColumn(g, n, i, i, Reshuffled(shuffle, ColumnPool(g, n, i), start, calls - start))
    requires !ok ==> h == []
    ensures (h, calls) == ColumnPass(g, n, i, shuffle, start)
  {
    ColumnFitIs(g, n, i, shuffle, start, calls - start);
  }

  /** The outcome of FillRow, as its contract states it, is what RowPass does. */
  lemma RowPassOf(g: Grid, n: nat, i: nat, shuffle: Shuffler, start: nat, ok: bool, h: Grid, calls: nat)
    requires Partial(g, n, i, i + 1) && 1 <= i < n && IsShuffler(shuffle)
    requires start < calls <= start + RetryBound(n, i) + 2
    requires ok <==> calls <= start + RetryBound(n, i) + 1
    requires RowRejects(g, n, i, shuffle, RowPool(g, n, i), start, calls - start)
    requires ok ==> FitsRow(g, n, i, Reshuffled(shuffle, RowPool(g, n, i), start, calls - start))
    requires ok ==> h == WithRow(g, n, i, i + 1, Reshuffled(shuffle, RowPool(g, n, i), start, calls - start))
    requires !ok ==> h == []
    ensures (h, calls) == RowPass(g, n, i, shuffle, start)
  {
    RowFitIs(g, n, i, shuffle, start, calls - start);
  }

  /**
   * One pass of the loop of `generate_square` (source lines 49-98) as a
   * function of the grid and the call count: the column step at i and, when
   * it found a fitting shuffle, the row step at i. The result is the grid
   * with both lines written in and the call count after them, or the empty
   * grid once a step has used up its shuffles.
   */
  ghost function Diagonal(g: Grid, n: nat, i: nat, shuffle: Shuffler, start: nat): (r: (Grid, nat))
    requires Partial(g, n, i, i) && 1 <= i < n && IsShuffler(shuffle)
    ensures start < r.1
    ensures r.0 != [] ==> Partial(r.0, n, i + 1, i + 1)
  {
    var column := ColumnPass(g, n, i, shuffle, start);
    if column.0 == [] then column else RowPass(column.0, n, i, shuffle, column.1)
  }

  /**
   * The loop of `generate_square` from diagonal index i on: the finished
   * grid, a Latin square, and the call count after it, or the empty grid
   * from the first pass that fails.
   */
  ghost function Construct(g: Grid, n: nat, i: nat, shuffle: Shuffler, start: nat): (r: (Grid, nat))
    requires Partial(g, n, i, i) && 1 <= i <= n && IsShuffler(shuffle)
    ensures r.0 == [] || IsLatinSquare(r.0, n)
    ensures start <= r.1
    decreases n - i
  {
    if i == n then PartialComplete(g, n); (g, start)
    else
      var pass := Diagonal(g, n, i, shuffle, start);
      if pass.0 == [] then pass else Construct(pass.0, n, i + 1, shuffle, pass.1)
  }

  /**
   * The grid `generate_square` starts its loop from (source lines 32-46):
   * row 0 the shuffle of 1..N at call `start`, column 0 below the corner the
   * next shuffle, of 1..N without the corner value, and zeros elsewhere.
   */
  ghost function Border(n: nat, shuffle: Shuffler, start: nat): (g: Grid)
    requires n >= 1 && IsShuffler(shuffle)
    ensures Partial(g, n, 1, 1)
  {
    var row0 := shuffle(Fill(n), start);
    FirstRowStep(n, row0);
    var top := Zeros(n)[0 := row0];
    var col0 := shuffle(Purge(Fill(n), row0[0]), start + 1);
    FirstColumnStep(top, n, col0);
    WithColumn(top, n, 0, 1, col0)
  }

  /**
   * One pass of the loop of `generate_square` (source lines 49-98): column i
   * and then row i, as `Diagonal` describes. `mid` is the call count after
   * the column step, so the column step took `mid - calls0` shuffles and
   * the row step `calls - mid`; the pass succeeds exactly when both stayed
   * within RetryBound(n, i) + 1. On success the construction extends to row
   * and column i and the border is untouched.
   */
  method DiagonalStep(g: Grid, n: nat, i: nat, shuffle: Shuffler, calls0: nat, ghost row0: seq<int>, ghost col0: seq<int>)
      returns (ok: bool, h: Grid, mid: nat, calls: nat)
    requires Partial(g, n, i, i) && HasBorder(g, n, row0, col0) && 1 <= i < n && IsShuffler(shuffle)
    ensures (h, calls) == Diagonal(g, n, i, shuffle, calls0)
    ensures calls0 < mid <= calls
    ensures mid - calls0 == ColumnFit(g, n, i, shuffle, calls0, 1)
    ensures ok <==> mid - calls0 <= RetryBound(n, i) + 1 && calls - mid <= RetryBound(n, i) + 1
    ensures ok <==> h != []
    ensures ok ==> Partial(h, n, i + 1, i + 1) && HasBorder(h, n, row0, col0)
  {
    ok, h, calls := FillColumn(g, n, i, shuffle, calls0);
    mid := calls;
    ColumnPassOf(g, n, i, shuffle, calls0, ok, h, calls);
    if !ok {
      return;
    }
    ColumnStepKeepsBorder(g, n, i, Reshuffled(shuffle, ColumnPool(g, n, i), calls0, mid - calls0), row0, col0);
    ghost var half := h;
    ok, h, calls := FillRow(h, n, i, shuffle, calls);
    RowPassOf(half, n, i, shuffle, mid, ok, h, calls);
    if ok {
      RowStepKeepsBorder(half, n, i, Reshuffled(shuffle, RowPool(half, n, i), mid, calls - mid), row0, col0);
    }
  }

  /**
   * `generate_square`: one construction attempt, starting after call
   * `calls0` of the shuffle oracle. The result and the call count after it
   * are what `Construct` makes of the border grid; so a non-empty result is
   * a Latin square, its row 0 is the first shuffle of 1..N and its column 0
   * below the corner the second shuffle, of 1..N without the corner value.
   */
  method GenerateSquare(n: nat, shuffle: Shuffler, calls0: nat) returns (latin: Grid, calls: nat)
    requires n >= 1 && IsShuffler(shuffle)
    ensures (latin, calls) == Construct(Border(n, shuffle, calls0), n, 1, shuffle, calls0 + 2)
    ensures latin == [] || IsLatinSquare(latin, n)
    ensures latin != [] ==> latin[0] == shuffle(Fill(n), calls0)
    ensures latin != [] ==> Column(latin, 0)[1..] == shuffle(Purge(Fill(n), latin[0][0]), calls0 + 1)
    ensures n == 1 ==> latin == [[1]]
    ensures calls >= calls0 + 2
  {
    var g := FillFirstRow(n, shuffle, calls0);
    ghost var row0, col0 := g[0], shuffle(Purge(Fill(n), g[0][0]), calls0 + 1);
    g := FillFirstColumn(g, n, shuffle, calls0 + 1);
    ghost var border := g;
    assert border == Border(n, shuffle, calls0);
    calls := calls0 + 2;

    // The diagonal steps.
    for i := 1 to n
      invariant Partial(g, n, i, i)
      invariant HasBorder(g, n, row0, col0)
      invariant Construct(border, n, 1, shuffle, calls0 + 2) == Construct(g, n, i, shuffle, calls)
      invariant calls >= calls0 + 2
    {
      var ok, mid;
      ok, g, mid, calls := DiagonalStep(g, n, i, shuffle, calls, row0, col0);
      if !ok {
        return [], calls;
      }
    }
    PartialComplete(g, n);
    latin := g;
    BorderColumn(latin, n, row0, col0);
    if n == 1 {
      OneCell(latin);
    }
  }

  /** Column 0 of a grid with this border is the corner followed by `col0`. */
  lemma BorderColumn(g: Grid, n: nat, row0: seq<int>, col0: seq<int>)
    requires HasBorder(g, n, row0, col0)
    ensures Column(g, 0)[1..] == col0
  {
  }

  /** The only 1×1 Latin square is [[1]]. */
  lemma OneCell(g: Grid)
    requires IsLatinSquare(g, 1)
    ensures g == [[1]]
  {
    assert 1 <= g[0][0] <= 1;
    assert g[0] == [1];
  }

  /**
   * The attempts of `generate_latin_square` (source lines 131-143): the
   * first attempt whose square is non-empty, with the call count after it,
   * or the empty grid when the first attempt and `retries` more all failed.
   * Each attempt starts where the shuffles of the one before ended.
   */
  ghost function Attempts(n: nat, shuffle: Shuffler, start: nat, retries: nat): (r: (Grid, nat))
    requires n >= 1 && IsShuffler(shuffle)
    ensures r.0 == [] || IsLatinSquare(r.0, n)
    decreases retries
  {
    var attempt := Construct(Border(n, shuffle, start), n, 1, shuffle, start + 2);
    if attempt.0 != [] || retries == 0 then attempt else Attempts(n, shuffle, attempt.1, retries - 1)
  }

  /**
   * `generate_latin_square`: repeat construction attempts until one succeeds,
   * here for at most `retries` attempts after the first; the result and the
   * call count are those of `Attempts`. The result of `check_square` on the
   * square is computed and discarded.
   */
  method GenerateLatinSquare(n: nat, shuffle: Shuffler, calls0: nat, retries: nat)
      returns (latin: Grid, calls: nat)
    requires n >= 1 && IsShuffler(shuffle)
    ensures (latin, calls) == Attempts(n, shuffle, calls0, retries)
    ensures latin == [] || IsLatinSquare(latin, n)
    ensures latin != [] ==> Validator.AsWrittenScore(latin) == n * n
    ensures n == 1 ==> latin == [[1]]
  {
    latin, calls := GenerateSquare(n, shuffle, calls0);
    var left := retries;
    while latin == [] && left > 0
      invariant latin == [] || IsLatinSquare(latin, n)
      invariant n == 1 ==> latin == [[1]]
      invariant latin == [] && left > 0 ==> Attempts(n, shuffle, calls0, retries) == Attempts(n, shuffle, calls, left - 1)
      invariant !(latin == [] && left > 0) ==> Attempts(n, shuffle, calls0, retries) == (latin, calls)
    {
      latin, calls := GenerateSquare(n, shuffle, calls);
      left := left - 1;
    }
    if latin != [] {
      var discarded := Validator.CheckSquare(latin);
      Validator.LatinSquareScore(latin, n);
    }
  }
}
