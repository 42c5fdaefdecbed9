/**
 * Removing values from a square (`cull_latin_square`).
 *
 * The number of cells to clear is the requested count, capped by the number
 * of filled (positive) cells. Cells are then probed at random positions of a
 * copy of the square, and a probed filled cell is cleared to 0, until that
 * many cells have been cleared.
 *
 * `rand()` is an oracle: the k-th pair of `probes` holds the two values that
 * the k-th loop pass draws for the row and the column.
 */
module Cull {
  import opened Grids

  /** The number of positive cells of a line. */
  function CountPositive(s: seq<int>): (r: nat)
    ensures r <= |s|
  {
    if s == [] then 0 else CountPositive(s[..|s| - 1]) + (if s[|s| - 1] > 0 then 1 else 0)
  }

  /** The number of positive cells in the first `rows` rows of `g`. */
  function GridPositive(g: Grid, rows: nat): nat
    requires rows <= |g|
  {
    if rows == 0 then 0 else GridPositive(g, rows - 1) + CountPositive(g[rows - 1])
  }

  /** Counting more rows never lowers the count. */
  lemma {:induction false} GridPositiveMonotone(g: Grid, rows: nat, more: nat)
    requires rows <= more <= |g|
    ensures GridPositive(g, rows) <= GridPositive(g, more)
    decreases more - rows
  {
    if rows < more {
      GridPositiveMonotone(g, rows, more - 1);
    }
  }

  /** Clearing a positive cell of a line removes exactly one positive cell. */
  lemma {:induction false} CountPositiveClear(s: seq<int>, c: nat)
    requires c < |s| && s[c] > 0
    ensures CountPositive(s[c := 0]) == CountPositive(s) - 1
  {
    var t := s[c := 0];
    assert t[..|t| - 1] == if c == |s| - 1 then s[..|s| - 1] else s[..|s| - 1][c := 0];
    if c < |s| - 1 {
      CountPositiveClear(s[..|s| - 1], c);
    }
  }

  /** Clearing a positive cell in one of the first `rows` rows removes exactly one positive cell from them. */
  lemma {:induction false} GridPositiveClear(g: Grid, rows: nat, r: nat, c: nat)
    requires rows <= |g| && r < |g| && c < |g[r]| && g[r][c] > 0
    ensures GridPositive(g[r := g[r][c := 0]], rows) == GridPositive(g, rows) - (if r < rows then 1 else 0)
  {
    if rows > 0 {
      GridPositiveClear(g, rows - 1, r, c);
      if r == rows - 1 {
        CountPositiveClear(g[r], c);
      }
    }
  }

  /** The number of cells that differ between two squares of the same size. */
  ghost function Changed(g: Grid, h: Grid): nat
    requires IsSquare(g, |g|) && IsSquare(h, |g|)
  {
    |ChangedCells(g, h)|
  }

  /** The positions where two squares of the same size differ. */
  ghost function ChangedCells(g: Grid, h: Grid): set<(int, int)>
    requires IsSquare(g, |g|) && IsSquare(h, |g|)
  {
    set r, c | 0 <= r < |g| && 0 <= c < |g| && h[r][c] != g[r][c] :: (r, c)
  }

  /** Clearing one more cell that was still as in `g` adds exactly one changed position. */
  lemma ClearOneMore(g: Grid, h: Grid, row: nat, col: nat)
    requires IsSquare(g, |g|) && IsSquare(h, |g|) && row < |g| && col < |g|
    requires h[row][col] == g[row][col] != 0
    ensures IsSquare(h[row := h[row][col := 0]], |g|)
    ensures Changed(g, h[row := h[row][col := 0]]) == Changed(g, h) + 1
  {
    var h' := h[row := h[row][col := 0]];
    assert ChangedCells(g, h') == ChangedCells(g, h) + {(row, col)};
    assert (row, col) !in ChangedCells(g, h);
  }

  /** Every cell of the copy `g` is as in `latin`, or was positive there and is now 0. */
  ghost predicate OnlyCleared(latin: Grid, g: Grid)
    requires IsSquare(latin, |latin|) && IsSquare(g, |latin|)
  {
    forall r, c :: 0 <= r < |latin| && 0 <= c < |latin| ==>
      g[r][c] == latin[r][c] || (latin[r][c] > 0 && g[r][c] == 0)
  }

  /**
   * The first `used` probes of `cull_latin_square` against the copy `g` of
   * `latin`: every probed cell of `g` is empty, and every cell where `g`
   * differs from `latin` was probed.
   */
  ghost predicate ProbedCleared(latin: Grid, g: Grid, probes: seq<(nat, nat)>, used: nat)
    requires IsSquare(latin, |latin|) && IsSquare(g, |latin|) && used <= |probes| && (|latin| == 0 ==> used == 0)
  {
    var n := |latin|;
    (forall p :: 0 <= p < used ==> g[probes[p].0 % n][probes[p].1 % n] <= 0)
    && (forall r, c :: 0 <= r < n && 0 <= c < n && g[r][c] != latin[r][c] ==>
          exists p :: 0 <= p < used && probes[p].0 % n == r && probes[p].1 % n == c)
  }

  /** One probe pass, which clears the probed cell if it is filled, extends the probed prefix by one. */
  lemma ProbeStep(latin: Grid, g: Grid, h: Grid, probes: seq<(nat, nat)>, used: nat)
    requires |latin| >= 1 && IsSquare(latin, |latin|) && IsSquare(g, |latin|) && used < |probes|
    requires OnlyCleared(latin, g) && ProbedCleared(latin, g, probes, used)
    requires var row, col := probes[used].0 % |latin|, probes[used].1 % |latin|;
             h == if g[row][col] > 0 then g[row := g[row][col := 0]] else g
    ensures IsSquare(h, |latin|)
    ensures OnlyCleared(latin, h) && ProbedCleared(latin, h, probes, used + 1)
  {
    var n := |latin|;
    var row, col := probes[used].0 % n, probes[used].1 % n;
    forall r, c | 0 <= r < n && 0 <= c < n && h[r][c] != latin[r][c]
      ensures exists p :: 0 <= p < used + 1 && probes[p].0 % n == r && probes[p].1 % n == c
    {
      if r == row && c == col {
      } else {
        assert g[r][c] != latin[r][c];
      }
    }
  }

  /**
   * The limit loop of `cull_latin_square` (source lines 204-213): the
   * requested count, capped by the number of positive cells, and 0 for the
   * empty square.
   */
  method CullLimit(latin: Grid, cull: int) returns (limit: int)
    requires IsSquare(latin, |latin|)
    ensures |latin| == 0 ==> limit == 0
    ensures |latin| >= 1 ==> limit == if cull < GridPositive(latin, |latin|) then cull else GridPositive(latin, |latin|)
  {
    var n := |latin|;
    limit := 0;
    var i := 0;
    while i < n
      invariant 0 <= i <= n
      invariant limit == GridPositive(latin, i) && (i == 0 || limit <= cull)
    {
      var j := 0;
      ghost var before := limit;
      while j < n
        invariant 0 <= j <= n
        invariant limit == before + CountPositive(latin[i][..j])
      {
        assert latin[i][..j + 1][..j] == latin[i][..j];
        if latin[i][j] > 0 {
          limit := limit + 1;
        }
        j := j + 1;
      }
      assert latin[i][..n] == latin[i];
      i := i + 1;
      if limit > cull {
        GridPositiveMonotone(latin, i, n);
        limit := cull;
        return;
      }
    }
  }

  /**
   * One pass of the clearing loop of `cull_latin_square` (source lines
   * 221-224) at the probed cell: a filled cell is cleared and counted, an
   * empty one is left alone. The copy keeps differing from `latin` only in
   * cleared cells, `culled` keeps counting them, and the positive cells keep
   * dropping by exactly that count.
   */
  method ClearIfFilled(latin: Grid, g: Grid, culled: nat, row: nat, col: nat) returns (h: Grid, culled': nat)
    requires IsSquare(latin, |latin|) && IsSquare(g, |latin|) && row < |latin| && col < |latin|
    requires OnlyCleared(latin, g) && culled == Changed(latin, g)
    requires GridPositive(g, |latin|) == GridPositive(latin, |latin|) - culled
    ensures h == if g[row][col] > 0 then g[row := g[row][col := 0]] else g
    ensures culled' == culled + (if g[row][col] > 0 then 1 else 0)
    ensures IsSquare(h, |latin|) && h[row][col] <= 0
    ensures OnlyCleared(latin, h) && culled' == Changed(latin, h)
    ensures GridPositive(h, |latin|) == GridPositive(latin, |latin|) - culled'
  {
    h, culled' := g, culled;
    if g[row][col] > 0 {
      ClearOneMore(latin, g, row, col);
      GridPositiveClear(g, |latin|, row, col);
      h := g[row := g[row][col := 0]];
      culled' := culled + 1;
    }
  }

  /**
   * `cull_latin_square`: a copy of the square in which `culled` filled cells
   * have been cleared to 0 and every other cell is unchanged. The loop stops
   * once `limit` cells are cleared, or, in this model, when the probes run
   * out; `used` is the number of probes consumed. Every probed cell ends up
   * empty, and every cleared cell was probed.
   */
  method CullLatinSquare(latin: Grid, cull: int, probes: seq<(nat, nat)>)
      returns (culledLatin: Grid, culled: nat, used: nat)
    requires IsSquare(latin, |latin|)
    ensures IsSquare(culledLatin, |latin|)
    ensures forall r, c :: 0 <= r < |latin| && 0 <= c < |latin| ==>
              culledLatin[r][c] == latin[r][c] || (latin[r][c] > 0 && culledLatin[r][c] == 0)
    ensures culled == Changed(latin, culledLatin)
    ensures GridPositive(culledLatin, |latin|) == GridPositive(latin, |latin|) - culled
    ensures used <= |probes|
    ensures |latin| >= 1 && used < |probes| ==>
              culled == if cull < GridPositive(latin, |latin|) then (if cull < 0 then 0 else cull)
                        else GridPositive(latin, |latin|)
    ensures |latin| >= 1 ==> culled <= GridPositive(latin, |latin|) && culled <= (if cull < 0 then 0 else cull)
    ensures |latin| == 0 ==> culled == 0 && used == 0
    ensures forall p :: 0 <= p < used ==> culledLatin[probes[p].0 % |latin|][probes[p].1 % |latin|] <= 0
    ensures forall r, c :: 0 <= r < |latin| && 0 <= c < |latin| && culledLatin[r][c] != latin[r][c] ==>
              exists p :: 0 <= p < used && probes[p].0 % |latin| == r && probes[p].1 % |latin| == c
  {
    var n := |latin|;
    var limit := CullLimit(latin, cull);
    culled := 0;
    culledLatin := latin;
    used := 0;
    assert ChangedCells(latin, culledLatin) == {};
    while culled < limit && used < |probes|
      invariant IsSquare(culledLatin, n) && used <= |probes| && (n == 0 ==> used == 0)
      invariant OnlyCleared(latin, culledLatin)
      invariant culled == Changed(latin, culledLatin)
      invariant GridPositive(culledLatin, n) == GridPositive(latin, n) - culled
      invariant culled <= (if limit < 0 then 0 else limit)
      invariant ProbedCleared(latin, culledLatin, probes, used)
    {
      var row := probes[used].0 % n;
      var col := probes[used].1 % n;
      ghost var before := culledLatin;
      culledLatin, culled := ClearIfFilled(latin, culledLatin, culled, row, col);
      ProbeStep(latin, before, culledLatin, probes, used);
      used := used + 1;
    }
  }
}
