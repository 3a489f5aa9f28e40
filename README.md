# Retirement planner: a Dafny model of the projection and the form logic

The retirement planner is a small Streamlit page over a Monte Carlo
projection. This project models its deterministic core in Dafny and proves
properties of that model.

**The projection (`simulation.py`).** `run_simulation` projects a portfolio year
by year, from the current age to the life expectancy:

- up to the retirement age, the balance compounds by the year's return and
  the annual contribution is added;
- after that, it compounds and an inflation-indexed spending amount is
  withdrawn;
- every computed year is floored at zero.

The annual returns are the only random part of the source. Here they are
inputs, one sequence of returns per run. `calculate_statistics` summarises a
batch of runs:

- the success rate (the share of runs that end with money left);
- representative runs, picked by position in the order of final values;
- the column of values at the retirement age.

**The form (`app.py`).** Three pieces are modelled:

- `parse_dollar`: it removes every `$` and `,`, strips surrounding whitespace
  and reads an integer, falling back to a default;
- the guard that runs a simulation only for ordered ages;
- the green/orange/red banner and its icon.

The flow from a submitted form to what the page shows is modelled on top of
these.

Files:

- `simulation.dfy` (module `Simulation`). A trajectory is specified by the
  recurrence `Prefix`/`Trajectory`. `RunSimulation` fills an `array2<real>`
  column by column, as the source does, and is proved to produce exactly
  those trajectories.
- `statistics.dfy` (module `Statistics`). Covers the success rate, an
  argsort (`ArgSort`, proved to satisfy the argsort predicate
  `IsArgSort`), the representative runs, the retirement column, and
  `CalculateStatistics`.
- `dollars.dfy` (module `Dollars`). Covers `parse_dollar`, and the thousands
  grouping used by the form's default texts for the round trip.
- `app.dfy` (module `App`). Covers the age guard, the banner, the age
  axis, and the submit flow (`Submit`, `Run`, and the `Shows` predicate
  that states what a report shows).

Money and rates are Dafny `real`s. Ages and parsed amounts are integers.

## Model

| member | source | states |
|---|---|---|
| Simulation.Prefix | simulation.py:25-46 | the first k+1 entries of a run: k+1 of them, entry 0 is the savings, every later entry is non-negative |
| Simulation.Trajectory | simulation.py:22-25 | a run has `life_expectancy - current_age + 1` entries |
| Simulation.AnnualReturns | simulation.py:29-31 | a run's returns are the accumulation-phase draws followed by the retirement-phase draws, `total_years` in all |
| Simulation.TrajectoryStartAndFloor | simulation.py:26-46 | entry 0 is the starting savings exactly (not floored); every later entry is at least 0 |
| Simulation.TrajectoryStep | simulation.py:33-46 | entry `year` is one step from entry `year - 1` using return `year - 1` |
| Simulation.AccumulationYear | simulation.py:34-46 | in an accumulation year the entry is max(prev·(1+r) + contribution, 0) |
| Simulation.RetirementYear | simulation.py:34-46 | in a retirement year the entry is max(prev·(1+r) − spending·(1+inflation)^(year − accumulation_years − 1), 0) |
| Simulation.FirstRetirementYearUnadjusted | simulation.py:41-43 | the first retirement year withdraws the spending without inflation |
| Simulation.EmptyStaysEmpty | simulation.py:34-46 | with non-negative spending and inflation ≥ −1, a zero balance from the retirement column on stays zero to the end |
| Simulation.AccumulationIgnoresRetirementReturns | simulation.py:29-38 | the entries up to the retirement column do not depend on the retirement-phase draws |
| Simulation.PrefixUsesEarlierReturns | simulation.py:33-34 | entry k depends only on the first k returns |
| Simulation.PrefixExtends | simulation.py:33-46 | columns once written are never changed by later years |
| Simulation.PowNonNegative | simulation.py:42 | the inflation index of a non-negative base is non-negative |
| Simulation.Floor0 | simulation.py:46 | the floor is at least 0 and at least its argument, and is one of the two |
| Simulation.Simulate | simulation.py:25-46 | one row per run; each row is that run's trajectory, starts at the savings and is non-negative after column 0 |
| Simulation.RunSimulation | simulation.py:22-48 | the array has `num_simulations` rows and `total_years + 1` columns, and cell (i, y) is entry y of run i's trajectory |
| Simulation.AdvanceYear | simulation.py:33-46 | one pass of the year loop fills column `year` with each run's next entry and leaves every other column unchanged |
| Statistics.CountPositive | simulation.py:58 | the count is the number of positions holding a positive final value; it is n exactly when all are positive, and 0 exactly when none is |
| Statistics.SuccessRate | simulation.py:56-58 | rate · n = 100 · (number of positive finals); so the rate lies in [0, 100], is 100 exactly when every run ends positive, and 0 exactly when none does |
| Statistics.PercentBounds | simulation.py:58 | 100·c/n times n is 100·c, and for 0 ≤ c ≤ n it lies in [0, 100] and reaches each end exactly when c does |
| Statistics.ResultsSuccessRate | simulation.py:56-58 | rate · n = 100 · (number of runs whose last value is positive), with the bounds and both ends as for SuccessRate |
| Statistics.Insert | simulation.py:70 | insertion adds one position and keeps exactly the old positions plus the new one |
| Statistics.InsertSorted | simulation.py:70 | insertion keeps the order sorted by final value |
| Statistics.InsertDistinct | simulation.py:70 | insertion keeps positions distinct |
| Statistics.ArgSort | simulation.py:70 | the result lists every run once, in non-decreasing order of final value |
| Statistics.PositionInRange | simulation.py:71-74 | for n ≥ 1 and pct < 100, int(n·pct/100) < n, so the sorted lookup is in bounds |
| Statistics.PositionMonotone | simulation.py:73-74 | a larger percentage never gives an earlier position |
| Statistics.RepresentativeRun | simulation.py:74-75 | the representative run is one of the runs |
| Statistics.RepresentativeRunsOrdered | simulation.py:69-75 | a higher percentile's representative run never ends lower |
| Statistics.RepresentativeRunRank | simulation.py:69-75 | with k = int(n·pct/100), at least k+1 runs end at or below the representative run and at least n−k end at or above it |
| Statistics.DistinctSliceCardinality | simulation.py:70 | distinct positions of the sorted order name as many runs as there are positions |
| Statistics.RepresentativeRuns | simulation.py:72-75 | every label maps to the run at position int(n·pct/100) of the sorted order (`RepresentativeRun`, whose rank is pinned by RepresentativeRunRank), and p10 ≤ p25 ≤ p50 ≤ p75 ≤ p90 by final value |
| Statistics.CalculateStatistics | simulation.py:51-89 | rate · n = 100 · (runs ending positive), in [0, 100] with both ends exact; each label's run is the one at its percentile position of the argsort of the final values, and the five are ordered; the retirement values are column `retirement_age - current_age` of every run |
| Dollars.RemoveAll | app.py:55 | `replace(c, "")` leaves no c and never lengthens the text |
| Dollars.RemoveAllKeeps | app.py:55 | `replace(c, "")` keeps every other character |
| Dollars.CleanKeeps | app.py:55 | removing `$` and `,` keeps exactly the other characters |
| Dollars.CleanHasNoSeparators | app.py:55 | the cleaned text has no `$` and no `,` |
| Dollars.CleanConcat | app.py:55 | cleaning works piece by piece |
| Dollars.TrimStart | app.py:55 | strips a prefix made only of whitespace, and the result does not start with whitespace |
| Dollars.TrimEnd | app.py:55 | strips a suffix made only of whitespace, and the result does not end with whitespace |
| Dollars.StripKeepsInner | app.py:55 | `strip()` keeps every character between two non-whitespace characters |
| Dollars.StripUnchanged | app.py:55 | `strip()` leaves text without outer whitespace alone |
| Dollars.ParseInt | app.py:55 | parsing succeeds exactly on an optional sign followed by at least one digit; a lone sign or any other character fails |
| Dollars.ParseIntRejects | app.py:55-56 | a character that is neither a digit nor a leading sign makes `int()` fail |
| Dollars.ParseIntDigits | app.py:55 | unsigned digits parse to the number they denote |
| Dollars.ParseIntSigned | app.py:55 | a `-` before digits gives minus their value, a `+` gives their value |
| Dollars.BlankFallsBack | app.py:54-58 | text made only of `$`, `,` and whitespace, including the empty text, gives the default |
| Dollars.ForeignCharFallsBack | app.py:54-58 | a letter, a decimal point or any other character that is not a digit, sign, separator or whitespace gives the default |
| Dollars.InnerSpaceFallsBack | app.py:54-58 | whitespace between two digits gives the default |
| Dollars.SpaceInsideRejected | app.py:55-56 | stripped text that keeps whitespace between two digits is not an integer |
| Dollars.SeparatorIgnored | app.py:55 | inserting a `$` or `,` anywhere does not change the result |
| Dollars.SameCleanSameParse | app.py:53-58 | texts that clean to the same text parse alike |
| Dollars.ParseDollar | app.py:53-58 | the result is the default unless the text holds a decimal digit; BlankFallsBack, ForeignCharFallsBack, InnerSpaceFallsBack, SeparatorIgnored and the round trips pin it further |
| Dollars.ParsedTextHasDigit | app.py:55 | text that `int()` accepts after cleaning holds a digit of the original text |
| Dollars.Decimal | app.py:29-32 | a number written in decimal is a non-empty string of digits |
| Dollars.DecimalValue | app.py:29-32 | decimal writing reads back to the number |
| Dollars.ValueConcat | app.py:55 | the value of two digit strings joined is the first shifted by the second's length plus the second |
| Dollars.CleanGrouped | app.py:29-32 | cleaning a comma-grouped number leaves its plain digits |
| Dollars.GroupedRoundTrip | app.py:53-58 | `"$"` followed by n with comma grouping parses back to n, whatever the default |
| Dollars.NegativeGroupedRoundTrip | app.py:53-58 | `"-$"` followed by n with comma grouping parses back to −n, whatever the default |
| App.InitialSavingsMatchesFallback | app.py:62 | the savings field's initial text parses to the savings fallback 2,400,000 |
| App.InitialContributionMatchesFallback | app.py:63 | the contribution field's initial text parses to the fallback 90,000 |
| App.InitialSpendingMatchesFallback | app.py:64 | the spending field's initial text parses to the fallback 400,000 |
| App.CheckAges | app.py:66-70 | no error exactly when current < retirement < life; the retirement error exactly when retirement ≤ current, so it wins over the life-expectancy error |
| App.RateColour | app.py:92-98 | green exactly from 80, orange exactly on [50, 80), red exactly below 50 |
| App.RateIcon | app.py:101 | the icon conditional always gives the icon of the banner's colour |
| App.BannerConsistent | app.py:92-101 | the icon always matches the colour, and a higher rate never gets a worse band |
| App.Ages | app.py:111 | the age axis lists each age from the current age to the life expectancy, once and in order |
| App.AgesMatchTrajectory | app.py:111 | the age axis is as long as a trajectory, and its retirement column holds the retirement age |
| App.UntouchedFormParams | app.py:61-82 | an untouched form runs with savings 2,400,000, contribution 90,000 and spending 400,000, and the inflation slider's percentage becomes the rate |
| App.RetirementOnAxis | app.py:111 | in a report, the retirement column lies strictly inside the age axis and holds the retirement age |
| App.Run | app.py:85-111 | a report shows the simulated runs, their summary exactly as CalculateStatistics computes it (rate, representative runs, retirement column), a matching age axis, and a banner whose colour and icon agree |
| App.Submit | app.py:61-111 | a form is rejected exactly when its ages are not ordered, with the retirement error first; otherwise its report shows the run of its parsed parameters and that run's summary |

## Left out

- Random sampling: `np.random.normal` (simulation.py:29-30). Each run's returns are an input, and the return means and standard deviations only shape those inputs.
- `np.percentile` with linear interpolation (simulation.py:62-66), and `np.median`, `np.min` and `np.max` (simulation.py:84-88). These are library numerics. The model's `Summary` holds the success rate, the representative runs and the retirement values only.
- Floating-point rounding and overflow. Money and rates are exact reals. `int(n * pct / 100)` is modelled as integer division, which agrees with the float computation for these magnitudes.
- Statistics.ArgSort: it is one argsort. numpy's tie order among equal final values may pick different runs. Every property of the representative runs is therefore proved for any ordering satisfying `IsArgSort`, not only for this one.
- Dollars.ParseInt: covers an optional `+`/`-` sign followed by ASCII digits. Python's `int()` also accepts `_` between digits and non-ASCII digits, and these are not modelled.
- Dollars.ParseInt: has no length limit. Python 3.11 and later (and patched earlier releases) make `int()` raise ValueError on more than 4300 digits, so `parse_dollar` returns the default there; Dollars.GroupedRoundTrip and Dollars.NegativeGroupedRoundTrip therefore hold in Python only for numbers below 10^4300.
- Dollars.Strip: removes ASCII whitespace only. Python's `str.strip()` also removes other Unicode whitespace.
- Simulation.RunSimulation: requires current age ≤ retirement age ≤ life expectancy. numpy fails on negative array sizes otherwise, and the form never calls it with other ages.
- Statistics.CalculateStatistics: requires at least one run with rows of one common width, as `sorted_indices[...]` needs, and a retirement column in [-width, width), as `results[:, retirement_year]` (simulation.py:78) raises IndexError otherwise. The Python negative column index is modelled through `Column`.
- The error message shown when a dollar text does not parse, and every other Streamlit widget, layout, chart, table and formatting call (app.py:1-50, 100-176).
- The shell scripts and container setup that launch the page; they are not part of this model.
