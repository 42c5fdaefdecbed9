/**
 * Skyscraper clues of a Latin square (`get_tower_clues`).
 *
 * Read a line of towers from one end: a tower is seen when it is taller than
 * every tower before it. The clue for that end is the number of towers seen,
 * that is, the number of strict prefix maxima of the line read in that
 * direction. The 4N clues are laid out by the index table of the source:
 * column j from the top at j, row j from the right at N + j, column j from
 * the bottom at 3N - 1 - j and row j from the left at 4N - 1 - j.
 */
module Clues {
  import opened Grids

  /** Position k of `s` is seen: its value exceeds every earlier value. */
  ghost predicate IsRise(s: seq<int>, k: nat)
    requires k < |s|
  {
    forall p :: 0 <= p < k ==> s[p] < s[k]
  }

  /** The number of seen positions among the first k of `s`. */
  ghost function RisesBefore(s: seq<int>, k: nat): nat
    requires k <= |s|
  {
    if k == 0 then 0 else RisesBefore(s, k - 1) + (if IsRise(s, k - 1) then 1 else 0)
  }

  /** The clue of a line read from its start: how many of its positions are seen. */
  ghost function RiseCount(s: seq<int>): nat {
    RisesBefore(s, |s|)
  }

  /** `s` read from its other end. */
  function Reversed(s: seq<int>): (r: seq<int>)
    ensures |r| == |s|
    ensures forall k :: 0 <= k < |s| ==> r[k] == s[|s| - 1 - k]
  {
    seq(|s|, k requires 0 <= k < |s| => s[|s| - 1 - k])
  }

  /** At most one position per step is seen, and the first position always is. */
  lemma {:induction false} RisesBeforeBounds(s: seq<int>, k: nat)
    requires k <= |s|
    ensures RisesBefore(s, k) <= k
    ensures k >= 1 ==> RisesBefore(s, k) >= 1
  {
    if k > 0 {
      RisesBeforeBounds(s, k - 1);
      if k == 1 {
        assert IsRise(s, 0);
      }
    }
  }

  /** Every clue of a non-empty line lies in 1..|s|. */
  lemma RiseCountBounds(s: seq<int>)
    requires |s| >= 1
    ensures 1 <= RiseCount(s) <= |s|
  {
    RisesBeforeBounds(s, |s|);
  }

  /** Every position of a strictly increasing line is seen, and only then are all of them. */
  lemma {:induction false} RisesBeforeAll(s: seq<int>, k: nat)
    requires k <= |s|
    ensures RisesBefore(s, k) == k <==> forall p :: 0 <= p < k ==> IsRise(s, p)
  {
    if k > 0 {
      RisesBeforeAll(s, k - 1);
      RisesBeforeBounds(s, k - 1);
    }
  }

  /** A line shows all its towers exactly when it is strictly increasing. */
  lemma RiseCountFull(s: seq<int>)
    ensures RiseCount(s) == |s| <==> forall p, q :: 0 <= p < q < |s| ==> s[p] < s[q]
  {
    RisesBeforeAll(s, |s|);
    if forall p :: 0 <= p < |s| ==> IsRise(s, p) {
      forall p, q | 0 <= p < q < |s| ensures s[p] < s[q] {
        assert IsRise(s, q);
      }
    }
  }

  /**
   * The two watermark loops of `get_tower_clues` over one line (source lines
   * 167-183): the clue of the line read from its start and from its end.
   */
  method ViewRises(view: seq<int>) returns (risesLeft: int, risesRight: int)
    requires |view| >= 1
    ensures risesLeft == RiseCount(view)
    ensures risesRight == RiseCount(Reversed(view))
  {
    var n := |view|;
    var watermarkLeft := view[0];
    var watermarkRight := view[n - 1];
    risesLeft := 1;
    risesRight := 1;
    assert RisesBefore(view, 1) == 1 by {
      assert IsRise(view, 0);
    }
    for k := 1 to n
      invariant risesLeft == RisesBefore(view, k)
      invariant forall p :: 0 <= p < k ==> view[p] <= watermarkLeft
      invariant exists p :: 0 <= p < k && view[p] == watermarkLeft
    {
      if view[k] > watermarkLeft {
        watermarkLeft := view[k];
        risesLeft := risesLeft + 1;
      } else {
        assert !IsRise(view, k);
      }
    }
    ghost var back := Reversed(view);
    assert RisesBefore(back, 1) == 1 by {
      assert IsRise(back, 0);
    }
    for k := 1 to n
      invariant risesRight == RisesBefore(back, k)
      invariant forall p :: 0 <= p < k ==> back[p] <= watermarkRight
      invariant exists p :: 0 <= p < k && back[p] == watermarkRight
    {
      assert view[n - 1 - k] == back[k];
      if view[n - 1 - k] > watermarkRight {
        watermarkRight := view[n - 1 - k];
        risesRight := risesRight + 1;
      } else {
        assert !IsRise(back, k);
      }
    }
  }

  /** Where the clue of line j, read in direction `side`, goes: the source's index table. */
  function Bearing(n: nat, j: nat, side: nat): (idx: nat)
    requires j < n && side < 4
    ensures idx < 4 * n
  {
    if side == 0 then j
    else if side == 1 then 4 * n - 1 - j
    else if side == 2 then 3 * n - 1 - j
    else j + n
  }

  /** The line and direction whose clue goes to position idx. */
  function BearingOf(n: nat, idx: nat): (r: (nat, nat))
    requires idx < 4 * n
    ensures r.0 < n && r.1 < 4
  {
    if idx < n then (idx, 0)
    else if idx < 2 * n then (idx - n, 3)
    else if idx < 3 * n then (3 * n - 1 - idx, 2)
    else (4 * n - 1 - idx, 1)
  }

  /** Each (line, direction) has its own position in the index table ... */
  lemma BearingOfBearing(n: nat, j: nat, side: nat)
    requires j < n && side < 4
    ensures BearingOf(n, Bearing(n, j, side)) == (j, side)
  {
  }

  /** ... and every position of 0..4N-1 belongs to one (line, direction). */
  lemma BearingBearingOf(n: nat, idx: nat)
    requires idx < 4 * n
    ensures Bearing(n, BearingOf(n, idx).0, BearingOf(n, idx).1) == idx
  {
  }

  /** The clue of line j read in direction `side`: column from the top, row from the left, column from the bottom, row from the right. */
  ghost function LineClue(g: Grid, j: nat, side: nat): int
    requires IsSquare(g, |g|) && j < |g| && side < 4
  {
    if side == 0 then RiseCount(Column(g, j))
    else if side == 1 then RiseCount(g[j])
    else if side == 2 then RiseCount(Reversed(Column(g, j)))
    else RiseCount(Reversed(g[j]))
  }

  /** The clue that belongs at position idx. */
  ghost function ClueAt(g: Grid, idx: nat): int
    requires IsSquare(g, |g|) && idx < 4 * |g|
  {
    LineClue(g, BearingOf(|g|, idx).0, BearingOf(|g|, idx).1)
  }

  /**
   * One pass of the outer loop of `get_tower_clues` (source lines 158-189):
   * the four clues of column j and row j, written through the index table;
   * every other position keeps its value.
   */
  method WriteLineClues(latin: Grid, j: nat, clues: seq<int>) returns (out: seq<int>)
    requires IsSquare(latin, |latin|) && j < |latin| && |clues| == 4 * |latin|
    ensures |out| == 4 * |latin|
    ensures forall idx :: 0 <= idx < 4 * |latin| ==>
              out[idx] == if BearingOf(|latin|, idx).0 == j then ClueAt(latin, idx) else clues[idx]
  {
    var n := |latin|;
    var bearings := [j, 4 * n - 1 - j, 3 * n - 1 - j, j + n];
    out := clues;
    for x := 0 to 2
      invariant |out| == 4 * n
      invariant forall idx :: 0 <= idx < 4 * n ==>
                  out[idx] == if BearingOf(n, idx).0 == j && BearingOf(n, idx).1 % 2 < x
                              then ClueAt(latin, idx) else clues[idx]
    {
      var view := if x == 0 then Column(latin, j) else latin[j];
      var risesLeft, risesRight := ViewRises(view);
      assert bearings[x] == Bearing(n, j, x) && bearings[x + 2] == Bearing(n, j, x + 2);
      BearingOfBearing(n, j, x);
      BearingOfBearing(n, j, x + 2);
      out := out[bearings[x] := risesLeft];
      out := out[bearings[x + 2] := risesRight];
      forall idx | 0 <= idx < 4 * n
        ensures out[idx] == if BearingOf(n, idx).0 == j && BearingOf(n, idx).1 % 2 < x + 1
                            then ClueAt(latin, idx) else clues[idx]
      {
        BearingBearingOf(n, idx);
      }
    }
  }

  /**
   * `get_tower_clues`: a vector of 4N clues. Column j read top to bottom goes
   * to j and bottom to top to 3N-1-j; row j read left to right goes to
   * 4N-1-j and right to left to N+j. Each clue lies in 1..N.
   */
  method GetTowerClues(latin: Grid) returns (clues: seq<int>)
    requires IsSquare(latin, |latin|)
    ensures |clues| == 4 * |latin|
    ensures forall idx :: 0 <= idx < 4 * |latin| ==> clues[idx] == ClueAt(latin, idx)
    ensures forall j :: 0 <= j < |latin| ==>
              clues[j] == RiseCount(Column(latin, j))
              && clues[3 * |latin| - 1 - j] == RiseCount(Reversed(Column(latin, j)))
              && clues[4 * |latin| - 1 - j] == RiseCount(latin[j])
              && clues[j + |latin|] == RiseCount(Reversed(latin[j]))
    ensures forall idx :: 0 <= idx < 4 * |latin| ==> 1 <= clues[idx] <= |latin|
  {
    var n := |latin|;
    clues := seq(4 * n, idx => 0);
    for j := 0 to n
      invariant |clues| == 4 * n
      invariant forall idx :: 0 <= idx < 4 * n ==>
                  clues[idx] == if BearingOf(n, idx).0 < j then ClueAt(latin, idx) else 0
    {
      clues := WriteLineClues(latin, j, clues);
    }
    ClueLayout(latin, clues);
    ClueRange(latin, clues);
  }

  /** A vector holding ClueAt everywhere has the layout of the index table. */
  lemma ClueLayout(latin: Grid, clues: seq<int>)
    requires IsSquare(latin, |latin|) && |clues| == 4 * |latin|
    requires forall idx :: 0 <= idx < 4 * |latin| ==> clues[idx] == ClueAt(latin, idx)
    ensures forall j :: 0 <= j < |latin| ==>
              clues[j] == RiseCount(Column(latin, j))
              && clues[3 * |latin| - 1 - j] == RiseCount(Reversed(Column(latin, j)))
              && clues[4 * |latin| - 1 - j] == RiseCount(latin[j])
              && clues[j + |latin|] == RiseCount(Reversed(latin[j]))
  {
    var n := |latin|;
    forall j | 0 <= j < n
      ensures clues[j] == RiseCount(Column(latin, j))
      ensures clues[3 * n - 1 - j] == RiseCount(Reversed(Column(latin, j)))
      ensures clues[4 * n - 1 - j] == RiseCount(latin[j])
      ensures clues[j + n] == RiseCount(Reversed(latin[j]))
    {
      BearingOfBearing(n, j, 0);
      BearingOfBearing(n, j, 1);
      BearingOfBearing(n, j, 2);
      BearingOfBearing(n, j, 3);
      assert clues[j] == ClueAt(latin, Bearing(n, j, 0));
      assert clues[4 * n - 1 - j] == ClueAt(latin, Bearing(n, j, 1));
      assert clues[3 * n - 1 - j] == ClueAt(latin, Bearing(n, j, 2));
      assert clues[j + n] == ClueAt(latin, Bearing(n, j, 3));
    }
  }

  /** Every clue of a square lies in 1..N. */
  lemma ClueRange(latin: Grid, clues: seq<int>)
    requires IsSquare(latin, |latin|) && |clues| == 4 * |latin|
    requires forall idx :: 0 <= idx < 4 * |latin| ==> clues[idx] == ClueAt(latin, idx)
    ensures forall idx :: 0 <= idx < 4 * |latin| ==> 1 <= clues[idx] <= |latin|
  {
    var n := |latin|;
    forall idx | 0 <= idx < 4 * n ensures 1 <= clues[idx] <= n {
      var j := BearingOf(n, idx).0;
      RiseCountBounds(Column(latin, j));
      RiseCountBounds(Reversed(Column(latin, j)));
      RiseCountBounds(latin[j]);
      RiseCountBounds(Reversed(latin[j]));
    }
  }

  /** The clue of a line of three towers. */
  lemma RiseCountOfThree(a: int, b: int, c: int)
    ensures RiseCount([a, b, c]) == 1 + (if a < b then 1 else 0) + (if a < c && b < c then 1 else 0)
  {
    var s := [a, b, c];
    assert RisesBefore(s, 1) == 1 by {
      assert IsRise(s, 0);
    }
    assert IsRise(s, 1) <==> a < b by {
      assert s[0] == a && s[1] == b;
    }
    assert IsRise(s, 2) <==> a < c && b < c by {
      assert s[0] == a && s[1] == b && s[2] == c;
    }
    assert RisesBefore(s, 3) == RisesBefore(s, 2) + (if IsRise(s, 2) then 1 else 0);
    assert RisesBefore(s, 2) == 1 + (if IsRise(s, 1) then 1 else 0);
  }

  /** The one-cell square shows one tower from each of its four edges. */
  lemma OneCellClues()
    ensures forall idx :: 0 <= idx < 4 ==> ClueAt([[1]], idx) == 1
  {
    var g := [[1]];
    assert Column(g, 0) == [1] && Reversed([1]) == [1];
    assert RiseCount([1]) == 1 by {
      assert IsRise([1], 0);
    }
  }

  /** The cyclic 3×3 Latin square and its twelve clues, in the layout of the index table. */
  lemma CyclicSquareClues(g: Grid)
    requires g == [[1, 2, 3], [2, 3, 1], [3, 1, 2]]
    ensures forall idx :: 0 <= idx < 12 ==> ClueAt(g, idx) == [3, 2, 1, 1, 2, 2, 2, 2, 1, 1, 2, 3][idx]
  {
    CyclicLine(g, 0, 1, 2, 3);
    CyclicLine(g, 1, 2, 3, 1);
    CyclicLine(g, 2, 3, 1, 2);
  }

  /** Line j of a symmetric 3×3 square, with row j = column j = [a, b, c]. */
  lemma CyclicLine(g: Grid, j: nat, a: int, b: int, c: int)
    requires IsSquare(g, 3) && j < 3 && g[j] == [a, b, c] && Column(g, j) == [a, b, c]
    ensures LineClue(g, j, 0) == RiseCount([a, b, c]) == LineClue(g, j, 1)
    ensures LineClue(g, j, 2) == RiseCount([c, b, a]) == LineClue(g, j, 3)
    ensures RiseCount([a, b, c]) == 1 + (if a < b then 1 else 0) + (if a < c && b < c then 1 else 0)
    ensures RiseCount([c, b, a]) == 1 + (if c < b then 1 else 0) + (if c < a && b < a then 1 else 0)
  {
    assert Reversed([a, b, c]) == [c, b, a];
    RiseCountOfThree(a, b, c);
    RiseCountOfThree(c, b, a);
  }
}
