/** Model of the logic in app.py between the form and the charts: the dollar
    fields' fallbacks, the age-ordering guard, the success-rate colour and
    icon, the age axis, and the submit flow that ties them to the simulation
    and its summary.  Widgets, layout, charts and tables are not modelled. */
module App {
  import opened Dollars
  import opened Simulation
  import opened Statistics

  // ---------------------------------------------------------------------
  // The form.

  /** The form fields that reach the simulation.  The return and deviation
      sliders only shape the random draws, which are inputs here, and the
      number of simulations is the number of rows of draws. */
  datatype Form = Form(
    currentAge: int,
    retirementAge: int,
    lifeExpectancy: int,
    savingsText: string,
    contributionText: string,
    spendingText: string,
    inflationPercent: real)

  /** The fallbacks `parse_dollar` is called with. */
  const FallbackSavings: int := 2400000
  const FallbackContribution: int := 90000
  const FallbackSpending: int := 400000

  /** The texts the dollar fields start with. */
  const InitialSavingsText: string := "$2,400,000"
  const InitialContributionText: string := "$90,000"
  const InitialSpendingText: string := "$400,000"

  /** The fields' initial texts parse to the hard-coded fallbacks, so an
      untouched form runs with the same amounts whatever fallback is passed,
      that is whether or not parsing succeeds. */
  lemma InitialSavingsMatchesFallback(default: int)
    ensures ParseDollar(InitialSavingsText, default) == FallbackSavings
  {
    SavingsTextGrouped();
    GroupedRoundTrip(2400000, default);
  }

  lemma SavingsTextGrouped()
    ensures InitialSavingsText == "$" + Grouped(2400000)
  {
    assert Grouped(2400) == "2,400" by {
      assert Grouped(2400) == Grouped(2) + "," + ThreeDigits(400);
    }
    assert Grouped(2400000) == "2,400" + "," + ThreeDigits(0);
  }

  lemma InitialContributionMatchesFallback(default: int)
    ensures ParseDollar(InitialContributionText, default) == FallbackContribution
  {
    ContributionTextGrouped();
    GroupedRoundTrip(90000, default);
  }

  lemma ContributionTextGrouped()
    ensures InitialContributionText == "$" + Grouped(90000)
  {
    assert Grouped(90) == "90";
    assert Grouped(90000) == "90" + "," + ThreeDigits(0);
  }

  lemma InitialSpendingMatchesFallback(default: int)
    ensures ParseDollar(InitialSpendingText, default) == FallbackSpending
  {
    SpendingTextGrouped();
    GroupedRoundTrip(400000, default);
  }

  lemma SpendingTextGrouped()
    ensures InitialSpendingText == "$" + Grouped(400000)
  {
    assert Grouped(400) == "400";
    assert Grouped(400000) == "400" + "," + ThreeDigits(0);
  }

  // ---------------------------------------------------------------------
  // The age guard.

  datatype AgeError = RetirementNotAfterCurrent | LifeNotAfterRetirement

  /** The guard before a simulation: the retirement age must exceed the
      current age, checked first, and the life expectancy must exceed the
      retirement age. */
  function CheckAges(currentAge: int, retirementAge: int, lifeExpectancy: int): (e: Option<AgeError>)
    ensures e == None <==> currentAge < retirementAge < lifeExpectancy
    ensures e == Some(RetirementNotAfterCurrent) <==> retirementAge <= currentAge
    ensures e == Some(LifeNotAfterRetirement) <==> currentAge < retirementAge && lifeExpectancy <= retirementAge
  {
    if retirementAge <= currentAge then Some(RetirementNotAfterCurrent)
    else if lifeExpectancy <= retirementAge then Some(LifeNotAfterRetirement)
    else None
  }

  // ---------------------------------------------------------------------
  // The success-rate banner.

  datatype Colour = Green | Orange | Red

  /** The banner colour: green from 80 percent, orange from 50, red below. */
  function RateColour(rate: real): (c: Colour)
    ensures c == Green <==> rate >= 80.0
    ensures c == Orange <==> 50.0 <= rate < 80.0
    ensures c == Red <==> rate < 50.0
  {
    if rate >= 80.0 then Green
    else if rate >= 50.0 then Orange
    else Red
  }

  /** The banner icon, chosen by its own conditional; it always is the icon
      of the banner's colour. */
  function RateIcon(rate: real): (icon: string)
    ensures icon == ColourIcon(RateColour(rate))
  {
    if rate >= 80.0 then "\U{2705}"
    else if rate >= 50.0 then "\U{26A0}\U{FE0F}"
    else "\U{274C}"
  }

  /** The icon that goes with each colour. */
  function ColourIcon(c: Colour): string {
    match c
    case Green => "\U{2705}"
    case Orange => "\U{26A0}\U{FE0F}"
    case Red => "\U{274C}"
  }

  /** 0 for the best band, 2 for the worst. */
  function Severity(c: Colour): nat {
    match c
    case Green => 0
    case Orange => 1
    case Red => 2
  }

  /** The icon always agrees with the colour, and a higher rate never gets a
      worse band. */
  lemma BannerConsistent(rate: real, higher: real)
    requires rate <= higher
    ensures RateIcon(rate) == ColourIcon(RateColour(rate))
    ensures Severity(RateColour(higher)) <= Severity(RateColour(rate))
  {
  }

  // ---------------------------------------------------------------------
  // The age axis.

  /** `list(range(current_age, life_expectancy + 1))`. */
  function Ages(currentAge: int, lifeExpectancy: int): (ages: seq<int>)
    ensures |ages| == if currentAge <= lifeExpectancy then lifeExpectancy - currentAge + 1 else 0
    ensures forall k :: 0 <= k < |ages| ==> ages[k] == currentAge + k
    decreases lifeExpectancy - currentAge + 1
  {
    if currentAge > lifeExpectancy then []
    else Ages(currentAge, lifeExpectancy - 1) + [lifeExpectancy]
  }

  /** The age axis has one entry per column of a trajectory, and the
      retirement column sits at the retirement age. */
  lemma AgesMatchTrajectory(p: Params, rs: seq<real>)
    requires ValidHorizon(p) && |rs| == TotalYears(p)
    ensures |Ages(p.currentAge, p.lifeExpectancy)| == |Trajectory(p, rs)|
    ensures Ages(p.currentAge, p.lifeExpectancy)[AccumulationYears(p)] == p.retirementAge
  {
  }

  // ---------------------------------------------------------------------
  // Submitting the form.

  /** The parameters built from a form: the dollar texts parsed with their
      fallbacks and the inflation slider turned from percent into a rate. */
  function ParamsOf(form: Form): Params {
    Params(
      form.currentAge, form.retirementAge, form.lifeExpectancy,
      ParseDollar(form.savingsText, FallbackSavings) as real,
      ParseDollar(form.contributionText, FallbackContribution) as real,
      ParseDollar(form.spendingText, FallbackSpending) as real,
      form.inflationPercent / 100.0)
  }

  /** An untouched form runs with the amounts its fields start with, the
      same as the fallbacks, and with the inflation slider's percentage as a
      rate. */
  lemma UntouchedFormParams(form: Form)
    requires form.savingsText == InitialSavingsText
    requires form.contributionText == InitialContributionText
    requires form.spendingText == InitialSpendingText
    ensures ParamsOf(form).currentSavings == 2400000.0
    ensures ParamsOf(form).annualContribution == 90000.0
    ensures ParamsOf(form).annualSpending == 400000.0
    ensures ParamsOf(form).inflationRate * 100.0 == form.inflationPercent
  {
    InitialSavingsMatchesFallback(FallbackSavings);
    InitialContributionMatchesFallback(FallbackContribution);
    InitialSpendingMatchesFallback(FallbackSpending);
  }

  /** What the page shows after a successful run, apart from the percentile
      bands and medians. */
  datatype Report = Report(
    params: Params,
    results: seq<seq<real>>,
    summary: Summary,
    colour: Colour,
    icon: string,
    ages: seq<int>)

  datatype Outcome = Rejected(error: AgeError) | Ran(report: Report)

  /** The draws fit the form: one return per simulated year in every run
      whenever the ages pass the guard. */
  predicate DrawsFit(form: Form, draws: seq<seq<real>>) {
    |draws| >= 1 &&
    (form.currentAge < form.retirementAge < form.lifeExpectancy ==>
       forall i :: 0 <= i < |draws| ==> |draws[i]| == form.lifeExpectancy - form.currentAge)
  }

  /** What a report shows for parameters p and draws: the simulated runs,
      their summary as `calculate_statistics` computes it, an age axis with
      one age per column, the retirement values taken at the
      retirement age's column, a success rate that is 100 exactly when every
      run ends with money left, and a banner whose icon matches its colour. */
  predicate Shows(p: Params, draws: seq<seq<real>>, r: Report)
    requires ValidHorizon(p) && WellShapedReturns(p, draws) && |draws| >= 1
  {
    SimulatedMatrix(p, draws);
    && r.params == p
    && r.results == Simulate(p, draws)
    && r.summary == CalculateStatistics(r.results, p)
    && |r.ages| == TotalYears(p) + 1
    && (forall k :: 0 <= k < |r.ages| ==> r.ages[k] == p.currentAge + k)
    && |r.summary.retirementValues| == |draws|
    && (forall i :: 0 <= i < |draws| ==>
          r.summary.retirementValues[i] == r.results[i][AccumulationYears(p)])
    && 0.0 <= r.summary.successRate <= 100.0
    && (r.summary.successRate == 100.0 <==> forall i :: 0 <= i < |draws| ==> Last(r.results[i]) > 0.0)
    && r.colour == RateColour(r.summary.successRate)
    && r.icon == ColourIcon(r.colour)
  }

  /** The simulated runs form a matrix that `calculate_statistics` accepts,
      and the retirement column lies inside it. */
  lemma SimulatedMatrix(p: Params, draws: seq<seq<real>>)
    requires ValidHorizon(p) && WellShapedReturns(p, draws) && |draws| >= 1
    ensures IsMatrix(Simulate(p, draws))
    ensures 0 <= AccumulationYears(p) < |Simulate(p, draws)[0]|
  {
  }

  /** In a report, the retirement age sits strictly inside the age axis, at
      the column the retirement values are taken from. */
  lemma RetirementOnAxis(p: Params, draws: seq<seq<real>>, r: Report)
    requires p.currentAge < p.retirementAge < p.lifeExpectancy
    requires |draws| >= 1 && WellShapedReturns(p, draws) && Shows(p, draws, r)
    ensures 0 < AccumulationYears(p) < |r.ages| - 1
    ensures r.ages[AccumulationYears(p)] == p.retirementAge
  {
    assert |r.ages| == TotalYears(p) + 1;
    assert r.ages[AccumulationYears(p)] == p.currentAge + AccumulationYears(p);
  }

  /** The run behind a form whose ages pass the guard: simulate, summarise,
      pick the banner and lay out the age axis. */
  method Run(p: Params, draws: seq<seq<real>>) returns (r: Report)
    requires p.currentAge < p.retirementAge < p.lifeExpectancy
    requires |draws| >= 1 && WellShapedReturns(p, draws)
    ensures Shows(p, draws, r)
  {
    var results := Simulate(p, draws);
    var summary := CalculateStatistics(results, p);
    var rate := summary.successRate;
    BannerConsistent(rate, rate);
    var ages := Ages(p.currentAge, p.lifeExpectancy);
    r := Report(p, results, summary, RateColour(rate), RateIcon(rate), ages);
  }

  /** A submitted form: the dollar fields are parsed, then the ages are
      checked, and only ordered ages lead to a run. */
  method Submit(form: Form, draws: seq<seq<real>>) returns (out: Outcome)
    requires DrawsFit(form, draws)
    ensures out.Rejected? <==> !(form.currentAge < form.retirementAge < form.lifeExpectancy)
    ensures out.Rejected? ==> (out.error == RetirementNotAfterCurrent <==> form.retirementAge <= form.currentAge)
    ensures out.Ran? ==> Shows(ParamsOf(form), draws, out.report)
  {
    var p := ParamsOf(form);
    match CheckAges(form.currentAge, form.retirementAge, form.lifeExpectancy)
    case Some(e) =>
      out := Rejected(e);
    case None =>
      var report := Run(p, draws);
      out := Ran(report);
  }
}
