/** Model of `run_simulation` (simulation.py): a batch of portfolio trajectories,
    one row per Monte Carlo run and one column per age from the current age to
    the life expectancy.  The normally distributed annual returns are the only
    random part of the source; here each run's returns are an input sequence. */
module Simulation {

  /** The parameters `run_simulation` reads.  The return means and standard
      deviations only feed the random draws, which are inputs here, so they are
      not part of the record.  Money and rates are reals. */
  datatype Params = Params(
    currentAge: int,
    retirementAge: int,
    lifeExpectancy: int,
    currentSavings: real,
    annualContribution: real,
    annualSpending: real,
    inflationRate: real)

  /** Number of simulated years after the starting one. */
  function TotalYears(p: Params): int { p.lifeExpectancy - p.currentAge }

  /** Number of years in which contributions are added. */
  function AccumulationYears(p: Params): int { p.retirementAge - p.currentAge }

  /** Number of years in which spending is withdrawn. */
  function DistributionYears(p: Params): int { TotalYears(p) - AccumulationYears(p) }

  /** The ages for which numpy can allocate the result matrix and draw both
      phases' returns: every size it is asked for is non-negative. */
  predicate ValidHorizon(p: Params) {
    p.currentAge <= p.retirementAge <= p.lifeExpectancy
  }

  /** x to the n-th power, for the inflation index `(1 + inflation_rate) ** k`. */
  function Pow(x: real, n: nat): real {
    if n == 0 then 1.0 else x * Pow(x, n - 1)
  }

  lemma {:induction false} PowNonNegative(x: real, n: nat)
    requires x >= 0.0
    ensures Pow(x, n) >= 0.0
  {
    if n > 0 {
      PowNonNegative(x, n - 1);
    }
  }

  lemma ProductNonNegative(a: real, b: real)
    requires a >= 0.0 && b >= 0.0
    ensures a * b >= 0.0
  {
  }

  /** `np.maximum(v, 0)`: the portfolio cannot go negative. */
  function Floor0(v: real): (r: real)
    ensures r >= 0.0 && r >= v
    ensures r == v || r == 0.0
  {
    if v < 0.0 then 0.0 else v
  }

  /** Inflation-adjusted spending withdrawn in simulation year `year` of the
      distribution phase; the first retirement year uses the unadjusted amount. */
  function AdjustedSpending(p: Params, year: int): real
    requires year > AccumulationYears(p)
  {
    p.annualSpending * Pow(1.0 + p.inflationRate, year - AccumulationYears(p) - 1)
  }

  /** An accumulation year: the balance grows by the year's return, the
      contribution is added, and the result is floored at zero. */
  function Accumulate(prev: real, ret: real, contribution: real): real {
    Floor0(prev * (1.0 + ret) + contribution)
  }

  /** A retirement year: the balance grows by the year's return, the
      spending is withdrawn, and the result is floored at zero. */
  function Withdraw(prev: real, ret: real, spending: real): real {
    Floor0(prev * (1.0 + ret) - spending)
  }

  /** The balance at the end of simulation year `year`, from the previous
      balance and that year's return. */
  function Step(p: Params, prev: real, ret: real, year: int): real {
    if year <= AccumulationYears(p) then Accumulate(prev, ret, p.annualContribution)
    else Withdraw(prev, ret, AdjustedSpending(p, year))
  }

  /** The first k + 1 entries of the trajectory that the returns `rs` drive:
      entry `year` uses the return `rs[year - 1]` and nothing later. */
  function Prefix(p: Params, rs: seq<real>, k: nat): (t: seq<real>)
    requires k <= |rs|
    ensures |t| == k + 1 && t[0] == p.currentSavings
    ensures forall y :: 1 <= y <= k ==> t[y] >= 0.0
  {
    if k == 0 then [p.currentSavings]
    else
      var t := Prefix(p, rs, k - 1);
      t + [Step(p, t[k - 1], rs[k - 1], k)]
  }

  /** One run: the portfolio value at every age from the current age to the
      life expectancy, given the run's `TotalYears(p)` annual returns. */
  function Trajectory(p: Params, rs: seq<real>): (t: seq<real>)
    requires ValidHorizon(p) && |rs| == TotalYears(p)
    ensures |t| == TotalYears(p) + 1
  {
    Prefix(p, rs, TotalYears(p))
  }

  /** The returns of one run: `accumulation_years` draws from the accumulation
      phase followed by `distribution_years` draws from the retirement phase. */
  function AnnualReturns(p: Params, accum: seq<real>, retire: seq<real>): (rs: seq<real>)
    requires ValidHorizon(p)
    requires |accum| == AccumulationYears(p) && |retire| == DistributionYears(p)
    ensures |rs| == TotalYears(p)
    ensures rs[..AccumulationYears(p)] == accum && rs[AccumulationYears(p)..] == retire
  {
    accum + retire
  }

  /** A longer prefix extends a shorter one. */
  lemma {:induction false} PrefixExtends(p: Params, rs: seq<real>, j: nat, k: nat)
    requires j <= k <= |rs|
    ensures Prefix(p, rs, k)[..j + 1] == Prefix(p, rs, j)
  {
    if j < k {
      PrefixExtends(p, rs, j, k - 1);
      assert Prefix(p, rs, k)[..k] == Prefix(p, rs, k - 1);
    }
  }

  /** The prefix up to year k reads only the first k returns. */
  lemma {:induction false} PrefixUsesEarlierReturns(p: Params, rs1: seq<real>, rs2: seq<real>, k: nat)
    requires k <= |rs1| && k <= |rs2| && rs1[..k] == rs2[..k]
    ensures Prefix(p, rs1, k) == Prefix(p, rs2, k)
  {
    if k > 0 {
      assert rs1[..k - 1] == rs2[..k - 1] by {
        assert rs1[..k - 1] == rs1[..k][..k - 1];
        assert rs2[..k - 1] == rs2[..k][..k - 1];
      }
      assert rs1[k - 1] == rs1[..k][k - 1] == rs2[..k][k - 1] == rs2[k - 1];
      PrefixUsesEarlierReturns(p, rs1, rs2, k - 1);
    }
  }

  /** Entry `year` of a trajectory is one step from entry `year - 1`, using
      the return `rs[year - 1]`. */
  lemma TrajectoryStep(p: Params, rs: seq<real>, year: int)
    requires ValidHorizon(p) && |rs| == TotalYears(p)
    requires 1 <= year <= TotalYears(p)
    ensures Trajectory(p, rs)[year] == Step(p, Trajectory(p, rs)[year - 1], rs[year - 1], year)
  {
    PrefixExtends(p, rs, year, TotalYears(p));
    PrefixExtends(p, rs, year - 1, TotalYears(p));
    assert Trajectory(p, rs)[year] == Prefix(p, rs, year)[year];
    assert Trajectory(p, rs)[year - 1] == Prefix(p, rs, year - 1)[year - 1];
  }

  /** Entry 0 is the starting savings exactly, not floored at zero; every
      later entry is non-negative. */
  lemma TrajectoryStartAndFloor(p: Params, rs: seq<real>)
    requires ValidHorizon(p) && |rs| == TotalYears(p)
    ensures Trajectory(p, rs)[0] == p.currentSavings
    ensures forall y :: 1 <= y <= TotalYears(p) ==> Trajectory(p, rs)[y] >= 0.0
  {
  }

  /** In an accumulation year the balance compounds and the contribution is
      added, then the result is floored at zero. */
  lemma AccumulationYear(p: Params, rs: seq<real>, year: int)
    requires ValidHorizon(p) && |rs| == TotalYears(p)
    requires 1 <= year <= AccumulationYears(p)
    ensures var t := Trajectory(p, rs);
      t[year] == Floor0(t[year - 1] * (1.0 + rs[year - 1]) + p.annualContribution)
  {
    TrajectoryStep(p, rs, year);
  }

  /** In a retirement year the balance compounds and the spending, indexed by
      inflation for the retirement years already passed, is withdrawn. */
  lemma RetirementYear(p: Params, rs: seq<real>, year: int)
    requires ValidHorizon(p) && |rs| == TotalYears(p)
    requires AccumulationYears(p) < year <= TotalYears(p)
    ensures var t := Trajectory(p, rs);
      t[year] == Floor0(t[year - 1] * (1.0 + rs[year - 1])
                        - p.annualSpending * Pow(1.0 + p.inflationRate, year - AccumulationYears(p) - 1))
  {
    TrajectoryStep(p, rs, year);
    var t := Trajectory(p, rs);
    assert Step(p, t[year - 1], rs[year - 1], year)
        == Withdraw(t[year - 1], rs[year - 1], AdjustedSpending(p, year));
  }

  /** The first retirement year withdraws the spending without inflation. */
  lemma FirstRetirementYearUnadjusted(p: Params, rs: seq<real>)
    requires ValidHorizon(p) && |rs| == TotalYears(p)
    requires AccumulationYears(p) < TotalYears(p)
    ensures var t := Trajectory(p, rs); var y := AccumulationYears(p) + 1;
      t[y] == Withdraw(t[y - 1], rs[y - 1], p.annualSpending)
  {
    var y := AccumulationYears(p) + 1;
    TrajectoryStep(p, rs, y);
    assert Pow(1.0 + p.inflationRate, 0) == 1.0;
    assert AdjustedSpending(p, y) == p.annualSpending;
  }

  /** Once the portfolio is empty at or after retirement it stays empty:
      nothing is added any more and the withdrawal is never negative. */
  lemma {:induction false} EmptyStaysEmpty(p: Params, rs: seq<real>, year: int, later: int)
    requires ValidHorizon(p) && |rs| == TotalYears(p)
    requires p.annualSpending >= 0.0 && p.inflationRate >= -1.0
    requires AccumulationYears(p) <= year <= later <= TotalYears(p)
    requires Trajectory(p, rs)[year] == 0.0
    ensures Trajectory(p, rs)[later] == 0.0
  {
    if later > year {
      EmptyStaysEmpty(p, rs, year, later - 1);
      TrajectoryStep(p, rs, later);
      PowNonNegative(1.0 + p.inflationRate, later - AccumulationYears(p) - 1);
      var growth := Trajectory(p, rs)[later - 1] * (1.0 + rs[later - 1]);
      assert growth == 0.0;
      var index := Pow(1.0 + p.inflationRate, later - AccumulationYears(p) - 1);
      ProductNonNegative(p.annualSpending, index);
    }
  }

  /** The accumulation part of a trajectory, up to and including the
      retirement column, depends only on the accumulation-phase returns. */
  lemma AccumulationIgnoresRetirementReturns(p: Params, accum: seq<real>, retire1: seq<real>, retire2: seq<real>)
    requires ValidHorizon(p)
    requires |accum| == AccumulationYears(p)
    requires |retire1| == DistributionYears(p) && |retire2| == DistributionYears(p)
    ensures Trajectory(p, AnnualReturns(p, accum, retire1))[..AccumulationYears(p) + 1]
         == Trajectory(p, AnnualReturns(p, accum, retire2))[..AccumulationYears(p) + 1]
  {
    var rs1, rs2 := AnnualReturns(p, accum, retire1), AnnualReturns(p, accum, retire2);
    var acc := AccumulationYears(p);
    assert rs1[..acc] == accum == rs2[..acc];
    PrefixUsesEarlierReturns(p, rs1, rs2, acc);
    PrefixExtends(p, rs1, acc, TotalYears(p));
    PrefixExtends(p, rs2, acc, TotalYears(p));
  }

  /** Every run's returns have one entry per simulated year. */
  predicate WellShapedReturns(p: Params, draws: seq<seq<real>>) {
    forall i :: 0 <= i < |draws| ==> |draws[i]| == TotalYears(p)
  }

  /** The result matrix as a sequence of runs: runs never interact, so row i
      is the trajectory of run i's returns. */
  function Simulate(p: Params, draws: seq<seq<real>>): (m: seq<seq<real>>)
    requires ValidHorizon(p) && WellShapedReturns(p, draws)
    ensures |m| == |draws|
    ensures forall i :: 0 <= i < |m| ==> |m[i]| == TotalYears(p) + 1 && m[i][0] == p.currentSavings
    ensures forall i, y :: 0 <= i < |m| && 1 <= y < |m[i]| ==> m[i][y] >= 0.0
    ensures forall i :: 0 <= i < |m| ==> m[i] == Trajectory(p, draws[i])
  {
    seq(|draws|, i requires 0 <= i < |draws| => Trajectory(p, draws[i]))
  }

  /** `run_simulation`: allocate a zero matrix of `|draws|` rows and
      `TotalYears(p) + 1` columns, write the savings into column 0, then fill
      each later column from the one before, for all runs at once. */
  method RunSimulation(p: Params, draws: seq<seq<real>>) returns (results: array2<real>)
    requires ValidHorizon(p) && WellShapedReturns(p, draws)
    ensures fresh(results)
    ensures results.Length0 == |draws| && results.Length1 == TotalYears(p) + 1
    ensures forall i, y :: 0 <= i < |draws| && 0 <= y <= TotalYears(p) ==>
      results[i, y] == Trajectory(p, draws[i])[y]
  {
    var n := |draws|;
    var totalYears := TotalYears(p);
    results := new real[n, totalYears + 1];
    forall i | 0 <= i < n {
      results[i, 0] := p.currentSavings;
    }
    for year := 1 to totalYears + 1
      invariant forall i, y :: 0 <= i < n && 0 <= y < year ==> results[i, y] == Trajectory(p, draws[i])[y]
    {
      AdvanceYear(p, draws, results, year);
    }
  }

  /** One pass of the loop in `run_simulation`: column `year` is computed
      from column `year - 1` for every run; no other column changes. */
  method AdvanceYear(p: Params, draws: seq<seq<real>>, results: array2<real>, year: int)
    requires ValidHorizon(p) && WellShapedReturns(p, draws)
    requires results.Length0 == |draws| && results.Length1 == TotalYears(p) + 1
    requires 1 <= year <= TotalYears(p)
    requires forall i :: 0 <= i < |draws| ==> results[i, year - 1] == Trajectory(p, draws[i])[year - 1]
    modifies results
    ensures forall i, y :: 0 <= i < results.Length0 && 0 <= y < results.Length1 && y != year ==>
      results[i, y] == old(results[i, y])
    ensures forall i :: 0 <= i < |draws| ==> results[i, year] == Trajectory(p, draws[i])[year]
  {
    var n := |draws|;
    if year <= AccumulationYears(p) {
      forall i | 0 <= i < n {
        results[i, year] := Accumulate(results[i, year - 1], draws[i][year - 1], p.annualContribution);
      }
      forall i | 0 <= i < n
        ensures results[i, year] == Trajectory(p, draws[i])[year]
      {
        TrajectoryStep(p, draws[i], year);
      }
    } else {
      var yearsInRetirement := year - AccumulationYears(p) - 1;
      var adjustedSpending := p.annualSpending * Pow(1.0 + p.inflationRate, yearsInRetirement);
      forall i | 0 <= i < n {
        results[i, year] := Withdraw(results[i, year - 1], draws[i][year - 1], adjustedSpending);
      }
      forall i | 0 <= i < n
        ensures results[i, year] == Trajectory(p, draws[i])[year]
      {
        TrajectoryStep(p, draws[i], year);
      }
    }
  }

}
