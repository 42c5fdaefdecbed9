/**
 * One line of a grid (a row, a column or a pool of candidate values):
 * the `fill` and `purge` helpers of the generator and the counting facts
 * about lines of distinct values that the rest of the model relies on.
 */
module Lines {

  /** No value occurs twice in `s`. */
  ghost predicate Distinct(s: seq<int>) {
    forall a, b :: 0 <= a < b < |s| ==> s[a] != s[b]
  }

  /** `s` holds each of 1..n exactly once: a row or column of a Latin square. */
  ghost predicate IsRangePermutation(s: seq<int>, n: nat) {
    |s| == n && Distinct(s) && forall k :: 0 <= k < |s| ==> 1 <= s[k] <= n
  }

  /** The values of `s`, as a set. */
  ghost function Values(s: seq<int>): set<int> {
    set x | x in s
  }

  /** `fill`: the line 1, 2, ..., n that std::iota writes into a line of length n. */
  function Fill(n: nat): (r: seq<int>)
    ensures |r| == n
    ensures forall k :: 0 <= k < n ==> r[k] == k + 1
    ensures forall v :: v in r <==> 1 <= v <= n
    ensures Distinct(r)
  {
    if n == 0 then [] else Fill(n - 1) + [n]
  }

  /** The set {1, ..., n}. */
  ghost function Range(n: nat): (r: set<int>)
    ensures forall v :: v in r <==> 1 <= v <= n
  {
    Values(Fill(n))
  }

  /** `purge`: erase every occurrence of `target`, keeping the other elements. */
  function Purge(line: seq<int>, target: int): (r: seq<int>)
    ensures multiset(r) == multiset(line)[target := 0]
    ensures |r| == |line| - multiset(line)[target]
    ensures forall v :: v in r <==> v in line && v != target
  {
    if line == [] then []
    else
      assert line == [line[0]] + line[1..];
      if line[0] == target then Purge(line[1..], target)
      else [line[0]] + Purge(line[1..], target)
  }

  /** Purging distributes over concatenation: the kept elements stay in their original order. */
  lemma {:induction false} PurgeAppend(a: seq<int>, b: seq<int>, target: int)
    ensures Purge(a + b, target) == Purge(a, target) + Purge(b, target)
  {
    if a == [] {
      assert a + b == b;
    } else {
      assert (a + b)[0] == a[0];
      assert (a + b)[1..] == a[1..] + b;
      PurgeAppend(a[1..], b, target);
    }
  }

  /** Purging a value that does not occur leaves the line as it was. */
  lemma {:induction false} PurgeAbsent(line: seq<int>, target: int)
    requires target !in line
    ensures Purge(line, target) == line
  {
    if line != [] {
      assert target !in line[1..];
      PurgeAbsent(line[1..], target);
      assert line == [line[0]] + line[1..];
    }
  }

  /** The line left after purging each of `targets` in turn: a candidate pool of the generator. */
  function PurgeAll(line: seq<int>, targets: seq<int>): (r: seq<int>)
    ensures forall v :: v in r <==> v in line && v !in targets
    decreases |targets|
  {
    if targets == [] then line
    else Purge(PurgeAll(line, targets[..|targets| - 1]), targets[|targets| - 1])
  }

  /** Distinct lines are exactly those in which no value occurs twice (as a multiset). */
  lemma {:induction false} DistinctMultiplicity(s: seq<int>)
    ensures Distinct(s) <==> forall v :: multiset(s)[v] <= 1
  {
    if s != [] {
      var t := s[1..];
      assert s == [s[0]] + t;
      assert multiset(s) == multiset{s[0]} + multiset(t);
      DistinctMultiplicity(t);
      if Distinct(s) {
        assert Distinct(t) by {
          forall a, b | 0 <= a < b < |t| ensures t[a] != t[b] {
            assert t[a] == s[a + 1] && t[b] == s[b + 1];
          }
        }
        assert s[0] !in t by {
          forall k | 0 <= k < |t| ensures t[k] != s[0] {
            assert t[k] == s[k + 1];
          }
        }
      }
      if forall v :: multiset(s)[v] <= 1 {
        assert forall v :: multiset(t)[v] <= 1 by {
          forall v ensures multiset(t)[v] <= 1 {
            assert multiset(s)[v] == (if v == s[0] then 1 else 0) + multiset(t)[v];
          }
        }
        assert multiset(s)[s[0]] == 1 + multiset(t)[s[0]];
        assert s[0] !in t;
        forall a, b | 0 <= a < b < |s| ensures s[a] != s[b] {
          assert s[b] == t[b - 1];
          if a > 0 {
            assert s[a] == t[a - 1];
          }
        }
      }
    }
  }

  /** A rearrangement (same multiset) of a distinct line is distinct. */
  lemma DistinctRearranged(s: seq<int>, t: seq<int>)
    requires multiset(s) == multiset(t)
    requires Distinct(s)
    ensures Distinct(t)
  {
    DistinctMultiplicity(s);
    DistinctMultiplicity(t);
  }

  /** The pool left by purging distinct targets drawn from a distinct line: distinct, and shorter by one per target. */
  lemma {:induction false} PurgeAllDistinct(line: seq<int>, targets: seq<int>)
    requires Distinct(line) && Distinct(targets)
    requires forall k :: 0 <= k < |targets| ==> targets[k] in line
    ensures Distinct(PurgeAll(line, targets))
    ensures |PurgeAll(line, targets)| == |line| - |targets|
    decreases |targets|
  {
    if targets != [] {
      var front, last := targets[..|targets| - 1], targets[|targets| - 1];
      assert Distinct(front) by {
        forall a, b | 0 <= a < b < |front| ensures front[a] != front[b] {
          assert front[a] == targets[a] && front[b] == targets[b];
        }
      }
      assert last !in front by {
        forall k | 0 <= k < |front| ensures front[k] != last {
          assert front[k] == targets[k];
        }
      }
      PurgeAllDistinct(line, front);
      var pool := PurgeAll(line, front);
      assert last in pool;
      DistinctMultiplicity(pool);
      assert multiset(pool)[last] == 1;
      var rest := Purge(pool, last);
      forall v ensures multiset(rest)[v] <= 1 {
        assert multiset(rest)[v] <= multiset(pool)[v];
      }
      DistinctMultiplicity(rest);
    }
  }

  /** A line has at most as many values as positions, and exactly as many when it is distinct. */
  lemma {:induction false} ValuesCard(s: seq<int>)
    ensures |Values(s)| <= |s|
    ensures |Values(s)| == |s| <==> Distinct(s)
  {
    if s != [] {
      var t := s[1..];
      ValuesCard(t);
      assert Values(s) == {s[0]} + Values(t) by {
        assert s == [s[0]] + t;
      }
      if s[0] in t {
        var k :| 0 <= k < |t| && t[k] == s[0];
        assert s[k + 1] == s[0];
        assert Values(s) == Values(t);
      } else {
        assert s[0] !in Values(t);
        assert |Values(s)| == 1 + |Values(t)|;
        if Distinct(t) {
          forall a, b | 0 <= a < b < |s| ensures s[a] != s[b] {
            assert s[b] == t[b - 1];
            if a > 0 {
              assert s[a] == t[a - 1];
            }
          }
        }
        if Distinct(s) {
          forall a, b | 0 <= a < b < |t| ensures t[a] != t[b] {
            assert t[a] == s[a + 1] && t[b] == s[b + 1];
          }
        }
      }
    }
  }

  /** {1, ..., n} has n elements. */
  lemma RangeCard(n: nat)
    ensures |Range(n)| == n
  {
    ValuesCard(Fill(n));
  }

  /** A subset as large as its superset is the superset. */
  lemma SubsetSameCard(a: set<int>, b: set<int>)
    requires a <= b && |a| == |b|
    ensures a == b
  {
    assert b == a + (b - a);
    assert |b - a| == 0;
  }

  /** Pigeonhole: a line of n distinct values from 1..n holds every value of 1..n. */
  lemma RangePermutationHoldsAll(s: seq<int>, n: nat)
    requires IsRangePermutation(s, n)
    ensures forall v :: 1 <= v <= n ==> v in s
  {
    ValuesCard(s);
    RangeCard(n);
    assert Values(s) <= Range(n);
    SubsetSameCard(Values(s), Range(n));
    forall v | 1 <= v <= n ensures v in s {
      assert v in Range(n);
      assert v in Values(s);
    }
  }

  /** Conversely, a line of length n that holds every value of 1..n is a permutation of 1..n. */
  lemma HoldsAllIsRangePermutation(s: seq<int>, n: nat)
    requires |s| == n
    requires forall v :: 1 <= v <= n ==> v in s
    ensures IsRangePermutation(s, n)
  {
    ValuesCard(s);
    RangeCard(n);
    assert Range(n) <= Values(s);
    assert |Range(n)| <= |Values(s)| by {
      assert Values(s) == Range(n) + (Values(s) - Range(n));
    }
    SubsetSameCard(Range(n), Values(s));
    forall k | 0 <= k < |s| ensures 1 <= s[k] <= n {
      assert s[k] in Values(s);
    }
  }
}
