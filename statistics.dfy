/** Model of `calculate_statistics` (simulation.py): the summary of a batch of
    trajectories that the front end displays.  The matrix is a sequence of
    runs; every run has the same number of columns. */
module Statistics {
  import opened Simulation

  /** A result matrix the source can summarise: at least one run (the
      representative-run lookup reads position 0 of the sorted order even
      when there is none), and rows of one common, positive width. */
  predicate IsMatrix(results: seq<seq<real>>) {
    |results| >= 1 && |results[0]| >= 1 &&
    forall i :: 0 <= i < |results| ==> |results[i]| == |results[0]|
  }

  function Last(row: seq<real>): real
    requires |row| >= 1
  {
    row[|row| - 1]
  }

  /** `results[:, -1]`: every run's value at the life expectancy. */
  function FinalValues(results: seq<seq<real>>): seq<real>
    requires IsMatrix(results)
  {
    seq(|results|, i requires 0 <= i < |results| => Last(results[i]))
  }

  /** The positions of the runs that end with money left. */
  function Successes(xs: seq<real>): set<int> {
    set i | 0 <= i < |xs| && xs[i] > 0.0
  }

  /** Number of runs that end with money left. */
  function CountPositive(xs: seq<real>): (c: nat)
    ensures c == |Successes(xs)|
    ensures c <= |xs|
    ensures c == |xs| <==> forall i :: 0 <= i < |xs| ==> xs[i] > 0.0
    ensures c == 0 <==> forall i :: 0 <= i < |xs| ==> xs[i] <= 0.0
  {
    if xs == [] then 0
    else
      SuccessesSnoc(xs);
      CountPositive(xs[..|xs| - 1]) + (if xs[|xs| - 1] > 0.0 then 1 else 0)
  }

  /** The successes of a batch are those of all runs but the last, plus the
      last run when it succeeds. */
  lemma SuccessesSnoc(xs: seq<real>)
    requires xs != []
    ensures var n := |xs| - 1;
      Successes(xs) == Successes(xs[..n]) + (if xs[n] > 0.0 then {n} else {})
      && n !in Successes(xs[..n])
  {
  }

  /** `rate` is `count` out of `total` as a percentage. */
  predicate IsPercentOf(rate: real, count: int, total: int) {
    rate * (total as real) == 100.0 * (count as real)
  }

  /** `np.mean(final_values > 0) * 100`: the percentage of runs that succeed,
      that is 100 times the number of successes over the number of runs. */
  function SuccessRate(finals: seq<real>): (rate: real)
    requires |finals| >= 1
    ensures IsPercentOf(rate, |Successes(finals)|, |finals|)
    ensures 0.0 <= rate <= 100.0
    ensures rate == 100.0 <==> forall i :: 0 <= i < |finals| ==> finals[i] > 0.0
    ensures rate == 0.0 <==> forall i :: 0 <= i < |finals| ==> finals[i] <= 0.0
  {
    var n := |finals| as real;
    var c := CountPositive(finals) as real;
    PercentBounds(c, n);
    100.0 * c / n
  }

  /** A count out of a positive total, as a percentage, lies between 0 and
      100 and hits each end exactly when the count does. */
  lemma PercentBounds(c: real, n: real)
    requires 0.0 <= c <= n && n > 0.0
    ensures (100.0 * c / n) * n == 100.0 * c
    ensures 0.0 <= 100.0 * c / n <= 100.0
    ensures 100.0 * c / n == 100.0 <==> c == n
    ensures 100.0 * c / n == 0.0 <==> c == 0.0
  {
    var r := 100.0 * c / n;
    assert r * n == 100.0 * c;
    if r < 0.0 {
      ScaleStrict(0.0, r, n);
    }
    if r > 100.0 {
      ScaleStrict(r, 100.0, n);
    }
  }

  lemma ScaleStrict(a: real, b: real, n: real)
    requires a > b && n > 0.0
    ensures a * n > b * n
  {
  }

  // ---------------------------------------------------------------------
  // np.argsort: an ordering of the run numbers by final value.

  predicate InRange(idx: seq<int>, n: int) {
    forall j :: 0 <= j < |idx| ==> 0 <= idx[j] < n
  }

  predicate Distinct(idx: seq<int>) {
    forall j, k :: 0 <= j < k < |idx| ==> idx[j] != idx[k]
  }

  predicate SortedBy(keys: seq<real>, idx: seq<int>)
    requires InRange(idx, |keys|)
  {
    forall j, k :: 0 <= j <= k < |idx| ==> keys[idx[j]] <= keys[idx[k]]
  }

  /** `idx` lists every position of `keys` once, in an order that makes the
      keys non-decreasing: what `np.argsort(keys)` returns. */
  predicate IsArgSort(keys: seq<real>, idx: seq<int>) {
    |idx| == |keys| && InRange(idx, |keys|) && Distinct(idx) && SortedBy(keys, idx)
  }

  /** Insert position i into an ordering, after every position whose key is
      not larger. */
  function Insert(keys: seq<real>, idx: seq<int>, i: int): (r: seq<int>)
    requires InRange(idx, |keys|) && 0 <= i < |keys|
    ensures |r| == |idx| + 1 && InRange(r, |keys|)
    ensures forall x :: x in r <==> x in idx || x == i
    decreases |idx|
  {
    if idx == [] || keys[i] < keys[idx[0]] then [i] + idx
    else [idx[0]] + Insert(keys, idx[1..], i)
  }

  /** Insertion keeps an ordering sorted by key. */
  lemma {:induction false} InsertSorted(keys: seq<real>, idx: seq<int>, i: int)
    requires InRange(idx, |keys|) && 0 <= i < |keys| && SortedBy(keys, idx)
    ensures SortedBy(keys, Insert(keys, idx, i))
    decreases |idx|
  {
    var r := Insert(keys, idx, i);
    if idx == [] || keys[i] < keys[idx[0]] {
      assert forall k :: 0 <= k < |idx| ==> keys[i] <= keys[idx[k]];
      assert forall k :: 1 <= k < |r| ==> r[k] == idx[k - 1];
    } else {
      var rest := Insert(keys, idx[1..], i);
      InsertSorted(keys, idx[1..], i);
      HeadBelowInserted(keys, idx, i, rest);
      assert r == [idx[0]] + rest;
      forall j, k | 0 <= j <= k < |r| ensures keys[r[j]] <= keys[r[k]] {
        if j > 0 {
          assert r[j] == rest[j - 1] && r[k] == rest[k - 1];
        } else if k > 0 {
          assert r[0] == idx[0] && r[k] == rest[k - 1];
          assert keys[idx[0]] <= keys[rest[k - 1]];
        }
      }
    }
  }

  /** When position i goes after the first entry of a sorted ordering, that
      first key is at most every key of the rest with i inserted. */
  lemma HeadBelowInserted(keys: seq<real>, idx: seq<int>, i: int, rest: seq<int>)
    requires InRange(idx, |keys|) && 0 <= i < |keys| && SortedBy(keys, idx)
    requires idx != [] && keys[idx[0]] <= keys[i]
    requires rest == Insert(keys, idx[1..], i)
    ensures forall m :: 0 <= m < |rest| ==> keys[idx[0]] <= keys[rest[m]]
  {
    forall m | 0 <= m < |rest| ensures keys[idx[0]] <= keys[rest[m]] {
      var x := rest[m];
      assert x in rest;
      if x != i {
        var j :| 0 <= j < |idx[1..]| && idx[1..][j] == x;
        assert x == idx[j + 1];
        assert keys[idx[0]] <= keys[idx[j + 1]];
      }
    }
  }

  /** Inserting a new position keeps an ordering free of repetitions. */
  lemma {:induction false} InsertDistinct(keys: seq<real>, idx: seq<int>, i: int)
    requires InRange(idx, |keys|) && 0 <= i < |keys| && Distinct(idx) && i !in idx
    ensures Distinct(Insert(keys, idx, i))
    decreases |idx|
  {
    var r := Insert(keys, idx, i);
    if idx == [] || keys[i] < keys[idx[0]] {
      assert forall k :: 1 <= k < |r| ==> r[k] == idx[k - 1];
    } else {
      var rest := Insert(keys, idx[1..], i);
      assert Distinct(idx[1..]) by {
        forall j, k | 0 <= j < k < |idx[1..]| ensures idx[1..][j] != idx[1..][k] {
          assert idx[1..][j] == idx[j + 1] && idx[1..][k] == idx[k + 1];
        }
      }
      assert i !in idx[1..];
      InsertDistinct(keys, idx[1..], i);
      assert idx[0] !in idx[1..] by {
        forall k | 0 <= k < |idx[1..]| ensures idx[1..][k] != idx[0] {
          assert idx[1..][k] == idx[k + 1];
        }
      }
      assert idx[0] != i;
      assert idx[0] !in rest;
      assert r == [idx[0]] + rest;
      forall j, k | 0 <= j < k < |r| ensures r[j] != r[k] {
        if j > 0 {
          assert r[j] == rest[j - 1] && r[k] == rest[k - 1];
        } else {
          assert r[k] in rest;
        }
      }
    }
  }

  /** An ordering of positions 0 .. m - 1 of `keys` by key. */
  function ArgSortPrefix(keys: seq<real>, m: nat): (r: seq<int>)
    requires m <= |keys|
    ensures |r| == m && InRange(r, |keys|) && Distinct(r) && SortedBy(keys, r)
    ensures forall x :: x in r <==> 0 <= x < m
  {
    if m == 0 then []
    else
      var prev := ArgSortPrefix(keys, m - 1);
      InsertSorted(keys, prev, m - 1);
      InsertDistinct(keys, prev, m - 1);
      Insert(keys, prev, m - 1)
  }

  /** An argsort; the source's may order equal keys differently, so every
      property below is stated for any ordering that satisfies IsArgSort. */
  function ArgSort(keys: seq<real>): (idx: seq<int>)
    ensures IsArgSort(keys, idx)
  {
    ArgSortPrefix(keys, |keys|)
  }

  // ---------------------------------------------------------------------
  // Representative runs.

  /** The keys of `representative_runs`, with the percentile each names. */
  datatype Label = P10 | P25 | P50 | P75 | P90

  function Percent(l: Label): nat {
    match l
    case P10 => 10
    case P25 => 25
    case P50 => 50
    case P75 => 75
    case P90 => 90
  }

  /** `int(n * pct / 100)`: the position in sorted order that stands for a
      percentile (for these magnitudes the float quotient truncates exactly
      like integer division). */
  function Position(n: nat, pct: nat): nat {
    n * pct / 100
  }

  /** Below 100 percent the position lies inside a non-empty batch. */
  lemma PositionInRange(n: nat, pct: nat)
    requires n >= 1 && pct < 100
    ensures Position(n, pct) < n
  {
    assert n * pct <= n * 99;
    assert n * 99 < n * 100;
  }

  /** A larger percentile never picks an earlier position. */
  lemma PositionMonotone(n: nat, pct1: nat, pct2: nat)
    requires pct1 <= pct2
    ensures Position(n, pct1) <= Position(n, pct2)
  {
    assert n * pct1 <= n * pct2;
  }

  /** `results[sorted_indices[int(n * pct / 100)]]`. */
  function RepresentativeRun(results: seq<seq<real>>, idx: seq<int>, l: Label): (run: seq<real>)
    requires IsMatrix(results) && IsArgSort(FinalValues(results), idx)
    ensures run in results
  {
    PositionInRange(|results|, Percent(l));
    results[idx[Position(|results|, Percent(l))]]
  }

  /** The representative run of a higher percentile never ends lower. */
  lemma RepresentativeRunsOrdered(results: seq<seq<real>>, idx: seq<int>, l1: Label, l2: Label)
    requires IsMatrix(results) && IsArgSort(FinalValues(results), idx)
    requires Percent(l1) <= Percent(l2)
    ensures Last(RepresentativeRun(results, idx, l1)) <= Last(RepresentativeRun(results, idx, l2))
  {
    var n := |results|;
    PositionInRange(n, Percent(l1));
    PositionInRange(n, Percent(l2));
    PositionMonotone(n, Percent(l1), Percent(l2));
    var finals := FinalValues(results);
    var j, k := Position(n, Percent(l1)), Position(n, Percent(l2));
    assert finals[idx[j]] <= finals[idx[k]];
  }

  lemma SubsetCardinality(a: set<int>, b: set<int>)
    requires a <= b
    ensures |a| <= |b|
  {
    assert b == a + (b - a);
    assert a * (b - a) == {};
  }

  /** Distinct positions of an ordering name as many runs as there are positions. */
  lemma {:induction false} DistinctSliceCardinality(idx: seq<int>, lo: nat, hi: nat)
    requires lo <= hi <= |idx| && Distinct(idx)
    ensures |set j | lo <= j < hi :: idx[j]| == hi - lo
    decreases hi - lo
  {
    if lo < hi {
      DistinctSliceCardinality(idx, lo + 1, hi);
      var rest := set j | lo + 1 <= j < hi :: idx[j];
      assert idx[lo] !in rest;
      assert (set j | lo <= j < hi :: idx[j]) == {idx[lo]} + rest;
    }
  }

  /** The representative run of percentile pct is an order statistic of the
      final values: with k = int(n * pct / 100), at least k + 1 runs end at or
      below it and at least n - k runs end at or above it. */
  lemma RepresentativeRunRank(results: seq<seq<real>>, idx: seq<int>, l: Label)
    requires IsMatrix(results) && IsArgSort(FinalValues(results), idx)
    ensures var n, v := |results|, Last(RepresentativeRun(results, idx, l));
      var k := Position(n, Percent(l));
      && |set i | 0 <= i < n && Last(results[i]) <= v| >= k + 1
      && |set i | 0 <= i < n && Last(results[i]) >= v| >= n - k
  {
    var n, v := |results|, Last(RepresentativeRun(results, idx, l));
    var k := Position(n, Percent(l));
    PositionInRange(n, Percent(l));
    var finals := FinalValues(results);
    assert v == finals[idx[k]];
    var below := set j | 0 <= j < k + 1 :: idx[j];
    var above := set j | k <= j < n :: idx[j];
    DistinctSliceCardinality(idx, 0, k + 1);
    DistinctSliceCardinality(idx, k, n);
    SubsetCardinality(below, set i | 0 <= i < n && Last(results[i]) <= v);
    SubsetCardinality(above, set i | 0 <= i < n && Last(results[i]) >= v);
  }

  // ---------------------------------------------------------------------
  // The summary.

  /** The parts of the source's summary dictionary that this model computes:
      the success rate, the five representative runs by label and the
      column of values at retirement. */
  datatype Summary = Summary(
    successRate: real,
    representativeRuns: map<Label, seq<real>>,
    retirementValues: seq<real>)

  /** `results[:, retirement_year]`, with Python's indexing from the end for
      a negative column number. */
  function Column(results: seq<seq<real>>, col: int): seq<real>
    requires IsMatrix(results) && -|results[0]| <= col < |results[0]|
  {
    var c := if col < 0 then col + |results[0]| else col;
    seq(|results|, i requires 0 <= i < |results| => results[i][c])
  }

  const AllLabels: set<Label> := {P10, P25, P50, P75, P90}

  lemma AllLabelsComplete()
    ensures forall l: Label :: l in AllLabels
  {
    forall l: Label ensures l in AllLabels {
      match l
      case P10 | P25 | P50 | P75 | P90 =>
    }
  }

  /** The runs of a result matrix that end with money left. */
  function Survivors(results: seq<seq<real>>): set<int>
    requires IsMatrix(results)
  {
    set i | 0 <= i < |results| && Last(results[i]) > 0.0
  }

  /** The success rate of a result matrix, from its final column. */
  function ResultsSuccessRate(results: seq<seq<real>>): (rate: real)
    requires IsMatrix(results)
    ensures IsPercentOf(rate, |Survivors(results)|, |results|)
    ensures 0.0 <= rate <= 100.0
    ensures rate == 100.0 <==> forall i :: 0 <= i < |results| ==> Last(results[i]) > 0.0
    ensures rate == 0.0 <==> forall i :: 0 <= i < |results| ==> Last(results[i]) <= 0.0
  {
    var finals := FinalValues(results);
    assert forall i :: 0 <= i < |results| ==> finals[i] == Last(results[i]);
    assert Successes(finals) == Survivors(results);
    SuccessRate(finals)
  }

  /** `representative_runs`: the run at each percentile's position in the
      sorted order, keyed by label. */
  function RepresentativeRuns(results: seq<seq<real>>, idx: seq<int>): (runs: map<Label, seq<real>>)
    requires IsMatrix(results) && IsArgSort(FinalValues(results), idx)
    ensures forall l: Label :: l in runs && runs[l] == RepresentativeRun(results, idx, l)
    ensures forall l: Label :: runs[l] in results
    ensures && Last(runs[P10]) <= Last(runs[P25]) <= Last(runs[P50])
            && Last(runs[P50]) <= Last(runs[P75]) <= Last(runs[P90])
  {
    AllLabelsComplete();
    RepresentativeRunsOrdered(results, idx, P10, P25);
    RepresentativeRunsOrdered(results, idx, P25, P50);
    RepresentativeRunsOrdered(results, idx, P50, P75);
    RepresentativeRunsOrdered(results, idx, P75, P90);
    map l | l in AllLabels :: RepresentativeRun(results, idx, l)
  }

  /** `calculate_statistics`: the retirement column is the retirement age's
      offset from the current age, read from the parameters. */
  function CalculateStatistics(results: seq<seq<real>>, p: Params): (s: Summary)
    requires IsMatrix(results) && -|results[0]| <= AccumulationYears(p) < |results[0]|
    ensures IsPercentOf(s.successRate, |Survivors(results)|, |results|)
    ensures 0.0 <= s.successRate <= 100.0
    ensures s.successRate == 100.0 <==> forall i :: 0 <= i < |results| ==> Last(results[i]) > 0.0
    ensures s.successRate == 0.0 <==> forall i :: 0 <= i < |results| ==> Last(results[i]) <= 0.0
    ensures forall l: Label :: l in s.representativeRuns
    ensures forall l: Label ::
      s.representativeRuns[l] == RepresentativeRun(results, ArgSort(FinalValues(results)), l)
    ensures forall l: Label :: s.representativeRuns[l] in results
    ensures var runs := s.representativeRuns;
      && Last(runs[P10]) <= Last(runs[P25]) <= Last(runs[P50])
      && Last(runs[P50]) <= Last(runs[P75]) <= Last(runs[P90])
    ensures |s.retirementValues| == |results|
    ensures forall i :: 0 <= i < |results| ==>
      var column := AccumulationYears(p);
      s.retirementValues[i] == results[i][if column < 0 then column + |results[0]| else column]
  {
    var idx := ArgSort(FinalValues(results));
    var runs := RepresentativeRuns(results, idx);
    Summary(ResultsSuccessRate(results), runs, Column(results, AccumulationYears(p)))
  }
}
