/**
  The retirement-projection arithmetic of the LINE finance bot, over the
  reals: simulated monthly inflation and interest paths, the capital needed
  at the retirement date on each path, and the flat or yearly-growing
  monthly saving that reaches that capital.

  A path is one row of a rate matrix; column k is month k counted from now.
  The first `mb` columns are the months before retirement. Standard-normal
  draws are inputs, not generated.
*/
module LineBotFinance {
  import opened RealSeq

  // ---------------------------------------------------------------------
  // Horizon
  // ---------------------------------------------------------------------

  function MonthsBeforeRetirement(age: int, retirementAge: int): int
  {
    (retirementAge - age) * 12
  }

  function MonthsAfterRetirement(yearsAfterRetirement: int): int
  {
    yearsAfterRetirement * 12
  }

  /** Width of a simulated rate matrix. */
  function HorizonMonths(age: int, retirementAge: int, yearsAfterRetirement: int): int
  {
    MonthsBeforeRetirement(age, retirementAge) + MonthsAfterRetirement(yearsAfterRetirement)
  }

  predicate IsMatrix(m: seq<seq<real>>, rows: nat, cols: nat)
  {
    |m| == rows && forall i :: 0 <= i < |m| ==> |m[i]| == cols
  }

  // ---------------------------------------------------------------------
  // simple_cash_required_at_retirement
  // ---------------------------------------------------------------------

  /**
    Undiscounted baseline: years * 12 months of today's spending, which is
    the plain total of one month's spending over every post-retirement month.
  */
  function SimpleCashRequiredAtRetirement(yearsAfterRetirement: int, spendingPerMonthNow: real): (cash: real)
    ensures 0 <= yearsAfterRetirement ==>
              cash == Sum(Constant(MonthsAfterRetirement(yearsAfterRetirement), spendingPerMonthNow))
  {
    if 0 <= yearsAfterRetirement then
      SumConstant(yearsAfterRetirement * 12, spendingPerMonthNow);
      (yearsAfterRetirement * 12) as real * spendingPerMonthNow
    else
      (yearsAfterRetirement * 12) as real * spendingPerMonthNow
  }

  // ---------------------------------------------------------------------
  // get_inflation_and_investment_profile
  // ---------------------------------------------------------------------

  /** Monthly rates from standard-normal draws: (z * std + mean) / 12 in every cell. */
  function MonthlyRates(draws: seq<seq<real>>, assumptions: (real, real)): (rates: seq<seq<real>>)
    ensures |rates| == |draws|
    ensures forall i :: 0 <= i < |draws| ==> |rates[i]| == |draws[i]|
    ensures forall i, k :: 0 <= i < |draws| && 0 <= k < |draws[i]| ==>
              rates[i][k] == (draws[i][k] * assumptions.1 + assumptions.0) / 12.0
  {
    seq(|draws|, i requires 0 <= i < |draws| =>
      seq(|draws[i]|, k requires 0 <= k < |draws[i]| => (draws[i][k] * assumptions.1 + assumptions.0) / 12.0))
  }

  /**
    The inflation and interest rate matrices, numSim paths by the whole
    horizon; assumptions are (annual mean, annual standard deviation).
  */
  function InflationAndInvestmentProfile(age: int, retirementAge: int, yearsAfterRetirement: int, numSim: nat,
                                         infAssumptions: (real, real), intAssumptions: (real, real),
                                         infDraws: seq<seq<real>>, intDraws: seq<seq<real>>)
    : (profile: (seq<seq<real>>, seq<seq<real>>))
    requires age <= retirementAge && 0 <= yearsAfterRetirement
    requires IsMatrix(infDraws, numSim, HorizonMonths(age, retirementAge, yearsAfterRetirement))
    requires IsMatrix(intDraws, numSim, HorizonMonths(age, retirementAge, yearsAfterRetirement))
    ensures IsMatrix(profile.0, numSim, HorizonMonths(age, retirementAge, yearsAfterRetirement))
    ensures IsMatrix(profile.1, numSim, HorizonMonths(age, retirementAge, yearsAfterRetirement))
    ensures forall i, k :: 0 <= i < numSim && 0 <= k < HorizonMonths(age, retirementAge, yearsAfterRetirement) ==>
              && profile.0[i][k] == (infDraws[i][k] * infAssumptions.1 + infAssumptions.0) / 12.0
              && profile.1[i][k] == (intDraws[i][k] * intAssumptions.1 + intAssumptions.0) / 12.0
  {
    (MonthlyRates(infDraws, infAssumptions), MonthlyRates(intDraws, intAssumptions))
  }

  /** With no volatility every path is the same row of mean / 12. */
  lemma ProfileWithoutVolatility(age: int, retirementAge: int, yearsAfterRetirement: int, numSim: nat,
                                 infAssumptions: (real, real), intAssumptions: (real, real),
                                 infDraws: seq<seq<real>>, intDraws: seq<seq<real>>)
    requires age <= retirementAge && 0 <= yearsAfterRetirement
    requires IsMatrix(infDraws, numSim, HorizonMonths(age, retirementAge, yearsAfterRetirement))
    requires IsMatrix(intDraws, numSim, HorizonMonths(age, retirementAge, yearsAfterRetirement))
    requires infAssumptions.1 == 0.0 && intAssumptions.1 == 0.0
    ensures var profile := InflationAndInvestmentProfile(age, retirementAge, yearsAfterRetirement, numSim,
                                                          infAssumptions, intAssumptions, infDraws, intDraws);
            forall i :: 0 <= i < numSim ==>
              && profile.0[i] == Constant(HorizonMonths(age, retirementAge, yearsAfterRetirement), infAssumptions.0 / 12.0)
              && profile.1[i] == Constant(HorizonMonths(age, retirementAge, yearsAfterRetirement), intAssumptions.0 / 12.0)
  {
    var h := HorizonMonths(age, retirementAge, yearsAfterRetirement);
    var profile := InflationAndInvestmentProfile(age, retirementAge, yearsAfterRetirement, numSim,
                                                 infAssumptions, intAssumptions, infDraws, intDraws);
    forall i | 0 <= i < numSim
      ensures profile.0[i] == Constant(h, infAssumptions.0 / 12.0)
      ensures profile.1[i] == Constant(h, intAssumptions.0 / 12.0)
    {
      forall k | 0 <= k < h
        ensures profile.0[i][k] == infAssumptions.0 / 12.0
        ensures profile.1[i][k] == intAssumptions.0 / 12.0
      {
      }
    }
  }

  // ---------------------------------------------------------------------
  // fv_cash_required_at_retirement
  // ---------------------------------------------------------------------

  /**
    One path as the projection accepts it: inflation and interest rows of
    the same width holding at least the mb pre-retirement months, and
    interest above -100% from retirement on (it is divided by).
  */
  predicate ProjectablePath(mb: nat, inflation: seq<real>, interest: seq<real>)
  {
    mb <= |inflation| && |inflation| == |interest| && AboveMinusOne(interest[mb..])
  }

  /** Price level of each post-retirement month relative to today, month itself included. */
  function InflationMultipliers(mb: nat, inflation: seq<real>): (mult: seq<real>)
    requires mb <= |inflation|
    ensures |mult| == |inflation| - mb
  {
    CumProd(OnePlus(inflation))[mb..]
  }

  /** Entry j is the growth of prices over months 0..mb+j. */
  lemma InflationMultipliersAt(mb: nat, inflation: seq<real>)
    requires mb <= |inflation|
    ensures forall j :: 0 <= j < |inflation| - mb ==>
              InflationMultipliers(mb, inflation)[j] == Prod(OnePlus(inflation[..mb + j + 1]))
  {
    CumProdOfOnePlus(inflation);
  }

  /** Investment growth of each post-retirement month, restarted at the retirement date. */
  function InterestMultipliers(mb: nat, interest: seq<real>): (mult: seq<real>)
    requires mb <= |interest| && AboveMinusOne(interest[mb..])
    ensures |mult| == |interest| - mb && AllPositive(mult)
  {
    CumProdPositive(OnePlus(interest[mb..]));
    CumProd(OnePlus(interest[mb..]))
  }

  /** Entry j is the investment growth over months mb..mb+j. */
  lemma InterestMultipliersAt(mb: nat, interest: seq<real>)
    requires mb <= |interest| && AboveMinusOne(interest[mb..])
    ensures forall j :: 0 <= j < |interest| - mb ==>
              InterestMultipliers(mb, interest)[j] == Prod(OnePlus(interest[mb..mb + j + 1]))
  {
    CumProdOfOnePlus(interest[mb..]);
    forall j | 0 <= j < |interest| - mb
      ensures CumProd(OnePlus(interest[mb..]))[j] == Prod(OnePlus(interest[mb..mb + j + 1]))
    {
      assert interest[mb..][..j + 1] == interest[mb..mb + j + 1];
    }
  }

  /**
    Capital needed at the retirement date on one path: the sum of the
    post-retirement price levels times spend, each divided by the interest
    growth since retirement. It is strictly positive when spending is
    positive, no rate reaches -100% and at least one post-retirement month
    exists.
  */
  function PathCapital(mb: nat, spend: real, inflation: seq<real>, interest: seq<real>): (capital: real)
    requires ProjectablePath(mb, inflation, interest)
    ensures 0.0 < spend && AboveMinusOne(inflation) && mb < |inflation| ==> 0.0 < capital
  {
    DiscountedSpendingPositive(mb, spend, inflation, interest);
    Sum(Over(Scale(spend, InflationMultipliers(mb, inflation)), InterestMultipliers(mb, interest)))
  }

  /** PathCapital's positivity, on the running-product sum itself. */
  lemma DiscountedSpendingPositive(mb: nat, spend: real, inflation: seq<real>, interest: seq<real>)
    requires ProjectablePath(mb, inflation, interest)
    ensures 0.0 < spend && AboveMinusOne(inflation) && mb < |inflation| ==>
              0.0 < Sum(Over(Scale(spend, InflationMultipliers(mb, inflation)), InterestMultipliers(mb, interest)))
  {
    if 0.0 < spend && AboveMinusOne(inflation) && mb < |inflation| {
      CumProdPositive(OnePlus(inflation));
      SumPositive(Over(Scale(spend, InflationMultipliers(mb, inflation)), InterestMultipliers(mb, interest)));
    }
  }

  /**
    Post-retirement month j's spending valued at the retirement date, with
    the products written out: spend * prod_{k <= mb+j} (1 + inflation[k])
    divided by prod_{mb <= k <= mb+j} (1 + interest[k]).
  */
  function DiscountedSpending(mb: nat, spend: real, inflation: seq<real>, interest: seq<real>, j: nat): real
    requires ProjectablePath(mb, inflation, interest) && mb + j < |inflation|
  {
    DiscountPositive(mb, interest, j);
    spend * Prod(OnePlus(inflation[..mb + j + 1])) / Prod(OnePlus(interest[mb..mb + j + 1]))
  }

  /** Interest growth from retirement through month mb + j is positive. */
  lemma DiscountPositive(mb: nat, interest: seq<real>, j: nat)
    requires mb + j < |interest| && AboveMinusOne(interest[mb..])
    ensures Prod(OnePlus(interest[mb..mb + j + 1])) > 0.0
  {
    assert forall k :: 0 <= k <= j ==> interest[mb..mb + j + 1][k] == interest[mb..][k];
    ProdPositive(OnePlus(interest[mb..mb + j + 1]));
  }

  /** Sum of DiscountedSpending over every post-retirement month of the path. */
  function CapitalByFormula(mb: nat, spend: real, inflation: seq<real>, interest: seq<real>): real
    requires ProjectablePath(mb, inflation, interest)
  {
    Sum(seq(|inflation| - mb, j requires 0 <= j < |inflation| - mb => DiscountedSpending(mb, spend, inflation, interest, j)))
  }

  /**
    The running-product computation equals the explicit formula: month j
    after retirement is inflated over months 0..mb+j and discounted over
    months mb..mb+j.
  */
  lemma CapitalMatchesFormula(mb: nat, spend: real, inflation: seq<real>, interest: seq<real>)
    requires ProjectablePath(mb, inflation, interest)
    ensures PathCapital(mb, spend, inflation, interest) == CapitalByFormula(mb, spend, inflation, interest)
  {
    InflationMultipliersAt(mb, inflation);
    InterestMultipliersAt(mb, interest);
    var terms := Over(Scale(spend, InflationMultipliers(mb, inflation)), InterestMultipliers(mb, interest));
    var formula := seq(|inflation| - mb, j requires 0 <= j < |inflation| - mb => DiscountedSpending(mb, spend, inflation, interest, j));
    forall j | 0 <= j < |terms|
      ensures terms[j] == formula[j]
    {
    }
    assert terms == formula;
  }

  /** Interest earned before retirement never enters the required capital. */
  lemma CapitalIgnoresPreRetirementInterest(mb: nat, spend: real, inflation: seq<real>, interest: seq<real>, interest': seq<real>)
    requires ProjectablePath(mb, inflation, interest)
    requires |interest'| == |interest|
    requires forall k :: mb <= k < |interest| ==> interest'[k] == interest[k]
    ensures ProjectablePath(mb, inflation, interest')
    ensures PathCapital(mb, spend, inflation, interest') == PathCapital(mb, spend, inflation, interest)
  {
    assert interest'[mb..] == interest[mb..];
  }

  /**
    Inflation before retirement does enter it: changing month k's rate
    from inflation[k] to x rescales the capital by (1 + x) / (1 + inflation[k]).
  */
  lemma CapitalScalesWithPreRetirementInflation(mb: nat, spend: real, inflation: seq<real>, interest: seq<real>, k: nat, x: real)
    requires ProjectablePath(mb, inflation, interest) && k < mb
    ensures ProjectablePath(mb, inflation[k := x], interest)
    ensures (1.0 + inflation[k]) * PathCapital(mb, spend, inflation[k := x], interest)
         == (1.0 + x) * PathCapital(mb, spend, inflation, interest)
  {
    DiscountedRowsProportional(mb, spend, inflation, interest, k, x);
  }

  /** CapitalScalesWithPreRetirementInflation stated on the running-product sums themselves. */
  lemma DiscountedRowsProportional(mb: nat, spend: real, inflation: seq<real>, interest: seq<real>, k: nat, x: real)
    requires ProjectablePath(mb, inflation, interest) && k < mb
    ensures (1.0 + inflation[k]) * Sum(Over(Scale(spend, InflationMultipliers(mb, inflation[k := x])), InterestMultipliers(mb, interest)))
         == (1.0 + x) * Sum(Over(Scale(spend, InflationMultipliers(mb, inflation)), InterestMultipliers(mb, interest)))
  {
    InflationMultipliersUpdate(mb, inflation, k, x);
    SumOfProportionalRows(1.0 + inflation[k], 1.0 + x, spend, InflationMultipliers(mb, inflation[k := x]),
                          InflationMultipliers(mb, inflation), InterestMultipliers(mb, interest));
  }

  /** Changing month k's rate rescales every post-retirement price level by the same ratio. */
  lemma InflationMultipliersUpdate(mb: nat, inflation: seq<real>, k: nat, x: real)
    requires k < mb <= |inflation|
    ensures Scale(1.0 + inflation[k], InflationMultipliers(mb, inflation[k := x]))
         == Scale(1.0 + x, InflationMultipliers(mb, inflation))
  {
    var g := OnePlus(inflation);
    var after := InflationMultipliers(mb, inflation[k := x]);
    var before := InflationMultipliers(mb, inflation);
    assert OnePlus(inflation[k := x]) == g[k := 1.0 + x];
    forall j | 0 <= j < |inflation| - mb
      ensures Scale(g[k], after)[j] == Scale(1.0 + x, before)[j]
    {
      CumProdUpdate(g, k, 1.0 + x, mb + j);
    }
    assert Scale(g[k], after) == Scale(1.0 + x, before);
  }

  /** Pre-retirement inflation matters: a different rate in any such month gives a different capital. */
  lemma PreRetirementInflationMatters(mb: nat, spend: real, inflation: seq<real>, interest: seq<real>, k: nat, x: real)
    requires ProjectablePath(mb, inflation, interest) && mb < |inflation|
    requires AboveMinusOne(inflation) && spend > 0.0
    requires k < mb && x != inflation[k]
    ensures ProjectablePath(mb, inflation[k := x], interest)
    ensures PathCapital(mb, spend, inflation[k := x], interest) != PathCapital(mb, spend, inflation, interest)
  {
    CapitalScalesWithPreRetirementInflation(mb, spend, inflation, interest, k, x);
  }

  /** The required capital is linear in the monthly spending. */
  lemma CapitalLinearInSpending(mb: nat, c: real, spend: real, inflation: seq<real>, interest: seq<real>)
    requires ProjectablePath(mb, inflation, interest)
    ensures PathCapital(mb, c * spend, inflation, interest) == c * PathCapital(mb, spend, inflation, interest)
  {
    var up := InflationMultipliers(mb, inflation);
    var discount := InterestMultipliers(mb, interest);
    OverScaleLinear(c, spend, up, discount);
    SumScale(c, Over(Scale(spend, up), discount));
  }

  /** With every rate zero, each remaining month costs exactly today's spending. */
  lemma CapitalWithZeroRates(mb: nat, spend: real, inflation: seq<real>, interest: seq<real>)
    requires mb <= |inflation| && |inflation| == |interest|
    requires AllZero(inflation) && AllZero(interest)
    ensures ProjectablePath(mb, inflation, interest)
    ensures PathCapital(mb, spend, inflation, interest) == (|inflation| - mb) as real * spend
  {
    var n := |inflation| - mb;
    ZeroRateMultipliers(mb, inflation, interest);
    OverOnes(spend, n);
    assert PathCapital(mb, spend, inflation, interest) == Sum(Constant(n, spend));
    SumConstant(n, spend);
  }

  /** With every rate zero, every price level and every discount factor is 1. */
  lemma ZeroRateMultipliers(mb: nat, inflation: seq<real>, interest: seq<real>)
    requires mb <= |inflation| && |inflation| == |interest|
    requires AllZero(inflation) && AllZero(interest)
    ensures ProjectablePath(mb, inflation, interest)
    ensures InflationMultipliers(mb, inflation) == Constant(|inflation| - mb, 1.0)
    ensures InterestMultipliers(mb, interest) == Constant(|inflation| - mb, 1.0)
  {
    var n := |inflation|;
    assert OnePlus(inflation) == Constant(n, 1.0);
    assert OnePlus(interest[mb..]) == Constant(n - mb, 1.0);
    CumProdOnes(n);
    CumProdOnes(n - mb);
    assert Constant(n, 1.0)[mb..] == Constant(n - mb, 1.0);
  }

  /** One post-retirement month at constant monthly rates a (inflation) and b (interest). */
  function ConstantRateTerm(mb: nat, spend: real, a: real, b: real, j: nat): real
    requires b > -1.0
  {
    PowPositive(1.0 + b, j + 1);
    spend * Pow(1.0 + a, mb + j + 1) / Pow(1.0 + b, j + 1)
  }

  /** Closed-form annuity value at constant rates: sum over j < n of spend (1+a)^(mb+j+1) / (1+b)^(j+1). */
  function ConstantRateCapital(mb: nat, n: nat, spend: real, a: real, b: real): real
    requires b > -1.0
  {
    Sum(seq(n, j requires 0 <= j < n => ConstantRateTerm(mb, spend, a, b, j)))
  }

  /** At constant rates the projection is the closed-form annuity value. */
  lemma CapitalWithConstantRates(mb: nat, spend: real, inflation: seq<real>, interest: seq<real>, a: real, b: real)
    requires mb <= |inflation| && |inflation| == |interest| && b > -1.0
    requires forall k :: 0 <= k < |inflation| ==> inflation[k] == a && interest[k] == b
    ensures ProjectablePath(mb, inflation, interest)
    ensures PathCapital(mb, spend, inflation, interest) == ConstantRateCapital(mb, |inflation| - mb, spend, a, b)
  {
    assert AboveMinusOne(interest[mb..]) by {
      forall k | 0 <= k < |interest| - mb ensures interest[mb..][k] > -1.0 {
        assert interest[mb..][k] == interest[mb + k];
      }
    }
    CapitalMatchesFormula(mb, spend, inflation, interest);
    var n := |inflation| - mb;
    forall j | 0 <= j < n
      ensures DiscountedSpending(mb, spend, inflation, interest, j) == ConstantRateTerm(mb, spend, a, b, j)
    {
      ConstantRatePrefixes(mb, inflation, interest, a, b, j);
      ConstantRateMonth(mb, spend, inflation, interest, a, b, j);
    }
    assert seq(n, j requires 0 <= j < n => DiscountedSpending(mb, spend, inflation, interest, j))
        == seq(n, j requires 0 <= j < n => ConstantRateTerm(mb, spend, a, b, j));
  }

  /** One month of CapitalWithConstantRates, given the two growth products as powers. */
  lemma ConstantRateMonth(mb: nat, spend: real, inflation: seq<real>, interest: seq<real>, a: real, b: real, j: nat)
    requires ProjectablePath(mb, inflation, interest) && mb + j < |inflation| && b > -1.0
    requires Prod(OnePlus(inflation[..mb + j + 1])) == Pow(1.0 + a, mb + j + 1)
    requires Prod(OnePlus(interest[mb..mb + j + 1])) == Pow(1.0 + b, j + 1)
    ensures DiscountedSpending(mb, spend, inflation, interest, j) == ConstantRateTerm(mb, spend, a, b, j)
  {
    ConstantRateTermValue(mb, spend, a, b, j);
    DiscountedSpendingValue(mb, spend, inflation, interest, j);
    QuotientOfEquals(spend, Prod(OnePlus(inflation[..mb + j + 1])), Prod(OnePlus(interest[mb..mb + j + 1])),
                     Pow(1.0 + a, mb + j + 1), Pow(1.0 + b, j + 1));
  }

  /** At constant rates the growth through month mb + j is a power of (1 + rate). */
  lemma ConstantRatePrefixes(mb: nat, inflation: seq<real>, interest: seq<real>, a: real, b: real, j: nat)
    requires mb + j < |inflation| && |inflation| == |interest|
    requires forall k :: 0 <= k < |inflation| ==> inflation[k] == a && interest[k] == b
    ensures Prod(OnePlus(inflation[..mb + j + 1])) == Pow(1.0 + a, mb + j + 1)
    ensures Prod(OnePlus(interest[mb..mb + j + 1])) == Pow(1.0 + b, j + 1)
  {
    var before := inflation[..mb + j + 1];
    var after := interest[mb..mb + j + 1];
    assert forall k :: 0 <= k < |before| ==> before[k] == a;
    assert forall k :: 0 <= k < |after| ==> after[k] == interest[mb + k];
    ProdOfConstantRates(before, a);
    ProdOfConstantRates(after, b);
  }

  /** DiscountedSpending unfolded, with its divisor positive. */
  lemma DiscountedSpendingValue(mb: nat, spend: real, inflation: seq<real>, interest: seq<real>, j: nat)
    requires ProjectablePath(mb, inflation, interest) && mb + j < |inflation|
    ensures Prod(OnePlus(interest[mb..mb + j + 1])) > 0.0
    ensures DiscountedSpending(mb, spend, inflation, interest, j)
         == spend * Prod(OnePlus(inflation[..mb + j + 1])) / Prod(OnePlus(interest[mb..mb + j + 1]))
  {
    DiscountPositive(mb, interest, j);
  }

  /** Arithmetic step over plain reals, proved apart from any sequence facts to keep the solver's context small. */
  lemma QuotientOfEquals(spend: real, a: real, b: real, p: real, q: real)
    requires a == p && b == q && b != 0.0
    ensures spend * a / b == spend * p / q
  {
  }

  /** ConstantRateTerm unfolded, with its divisor positive. */
  lemma ConstantRateTermValue(mb: nat, spend: real, a: real, b: real, j: nat)
    requires b > -1.0
    ensures Pow(1.0 + b, j + 1) > 0.0
    ensures ConstantRateTerm(mb, spend, a, b, j) == spend * Pow(1.0 + a, mb + j + 1) / Pow(1.0 + b, j + 1)
  {
    PowPositive(1.0 + b, j + 1);
  }

  /** The growth of |s| months at the constant rate c is (1 + c)^|s|. */
  lemma ProdOfConstantRates(s: seq<real>, c: real)
    requires forall k :: 0 <= k < |s| ==> s[k] == c
    ensures Prod(OnePlus(s)) == Pow(1.0 + c, |s|)
  {
    assert OnePlus(s) == Constant(|s|, 1.0 + c);
    ProdConstant(|s|, 1.0 + c);
  }

  /** Every path of the matrices is projectable with mb months before retirement. */
  predicate ProjectableMatrix(mb: nat, annInf: seq<seq<real>>, annInt: seq<seq<real>>)
  {
    |annInf| == |annInt| && forall i :: 0 <= i < |annInf| ==> ProjectablePath(mb, annInf[i], annInt[i])
  }

  /**
    Capital needed at the retirement date, one value per simulated path,
    each computed from that path's rows alone. The post-retirement horizon
    is whatever the matrices hold after month mb; yearsAfterRetirement
    does not enter the computation.
  */
  function FvCashRequiredAtRetirement(age: int, retirementAge: int, yearsAfterRetirement: int, spendingPerMonthNow: real,
                                      annInf: seq<seq<real>>, annInt: seq<seq<real>>): (pv: seq<real>)
    requires age <= retirementAge
    requires ProjectableMatrix(MonthsBeforeRetirement(age, retirementAge), annInf, annInt)
    ensures |pv| == |annInf|
    ensures forall i :: 0 <= i < |pv| ==>
              pv[i] == CapitalByFormula(MonthsBeforeRetirement(age, retirementAge), spendingPerMonthNow, annInf[i], annInt[i])
  {
    var mb := MonthsBeforeRetirement(age, retirementAge);
    var pv := seq(|annInf|, i requires 0 <= i < |annInf| => PathCapital(mb, spendingPerMonthNow, annInf[i], annInt[i]));
    assert forall i :: 0 <= i < |pv| ==> pv[i] == CapitalByFormula(mb, spendingPerMonthNow, annInf[i], annInt[i]) by {
      forall i | 0 <= i < |pv|
        ensures pv[i] == CapitalByFormula(mb, spendingPerMonthNow, annInf[i], annInt[i])
      {
        CapitalMatchesFormula(mb, spendingPerMonthNow, annInf[i], annInt[i]);
      }
    }
    pv
  }

  /**
    With all rates zero and a horizon of exactly the years after retirement,
    every path needs the undiscounted baseline.
  */
  lemma RequiredCapitalWithZeroRatesIsSimpleCash(age: int, retirementAge: int, yearsAfterRetirement: nat, spend: real,
                                                 annInf: seq<seq<real>>, annInt: seq<seq<real>>)
    requires age <= retirementAge
    requires IsMatrix(annInf, |annInf|, HorizonMonths(age, retirementAge, yearsAfterRetirement))
    requires IsMatrix(annInt, |annInf|, HorizonMonths(age, retirementAge, yearsAfterRetirement))
    requires forall i :: 0 <= i < |annInf| ==> AllZero(annInf[i]) && AllZero(annInt[i])
    ensures ProjectableMatrix(MonthsBeforeRetirement(age, retirementAge), annInf, annInt)
    ensures forall i :: 0 <= i < |annInf| ==>
              FvCashRequiredAtRetirement(age, retirementAge, yearsAfterRetirement, spend, annInf, annInt)[i]
              == SimpleCashRequiredAtRetirement(yearsAfterRetirement, spend)
  {
    var mb := MonthsBeforeRetirement(age, retirementAge);
    forall i | 0 <= i < |annInf|
      ensures ProjectablePath(mb, annInf[i], annInt[i])
      ensures PathCapital(mb, spend, annInf[i], annInt[i]) == SimpleCashRequiredAtRetirement(yearsAfterRetirement, spend)
    {
      CapitalWithZeroRates(mb, spend, annInf[i], annInt[i]);
    }
    forall i | 0 <= i < |annInf|
      ensures FvCashRequiredAtRetirement(age, retirementAge, yearsAfterRetirement, spend, annInf, annInt)[i]
              == SimpleCashRequiredAtRetirement(yearsAfterRetirement, spend)
    {
      CapitalMatchesFormula(mb, spend, annInf[i], annInt[i]);
    }
  }

  // ---------------------------------------------------------------------
  // get_monthly_saving
  // ---------------------------------------------------------------------

  /** One path as the saving solver accepts it: at least one pre-retirement month, interest above -100% in them. */
  predicate SavablePath(mb: nat, interest: seq<real>)
  {
    0 < mb <= |interest| && AboveMinusOne(interest[..mb])
  }

  /**
    The multipliers the saving solver weighs each pre-retirement month's
    contribution by: the running product of (1 + interest) from month 0
    through month m, that is, investment growth from today to month m.
  */
  function PreRetirementMultipliers(mb: nat, interest: seq<real>): (mult: seq<real>)
    requires mb <= |interest| && AboveMinusOne(interest[..mb])
    ensures |mult| == mb && AllPositive(mult)
    ensures forall m :: 0 <= m < mb ==> mult[m] == Prod(OnePlus(interest[..m + 1]))
  {
    CumProdPositive(OnePlus(interest[..mb]));
    CumProdOfOnePlus(interest[..mb]);
    assert forall m :: 0 <= m < mb ==> CumProd(OnePlus(interest[..mb]))[m] == Prod(OnePlus(interest[..m + 1])) by {
      forall m | 0 <= m < mb
        ensures CumProd(OnePlus(interest[..mb]))[m] == Prod(OnePlus(interest[..m + 1]))
      {
        assert interest[..mb][..m + 1] == interest[..m + 1];
      }
    }
    CumProd(OnePlus(interest[..mb]))
  }

  /** The constant monthly saving whose grown contributions add up to the goal. */
  function FlatSaving(mb: nat, goal: real, interest: seq<real>): (saving: real)
    requires SavablePath(mb, interest)
    ensures Sum(Scale(saving, PreRetirementMultipliers(mb, interest))) == goal
  {
    var mult := PreRetirementMultipliers(mb, interest);
    SumPositive(mult);
    SumScale(goal / Sum(mult), mult);
    goal / Sum(mult)
  }

  /** The flat saving is the only constant contribution that reaches the goal. */
  lemma FlatSavingUnique(mb: nat, goal: real, interest: seq<real>, c: real)
    requires SavablePath(mb, interest)
    ensures Sum(Scale(c, PreRetirementMultipliers(mb, interest))) == goal <==> c == FlatSaving(mb, goal, interest)
  {
    var mult := PreRetirementMultipliers(mb, interest);
    SumPositive(mult);
    SumScale(c, mult);
    QuotientUnique(c, Sum(mult), goal);
  }

  /** c * s reaches the goal exactly when c is goal / s. */
  lemma QuotientUnique(c: real, s: real, goal: real)
    requires s > 0.0
    ensures c * s == goal <==> c == goal / s
  {
  }

  /** The flat saving reads only the first mb interest months. */
  lemma FlatSavingReadsOnlyPreRetirementInterest(mb: nat, goal: real, interest: seq<real>, interest': seq<real>)
    requires SavablePath(mb, interest) && mb <= |interest'|
    requires forall k :: 0 <= k < mb ==> interest'[k] == interest[k]
    ensures SavablePath(mb, interest')
    ensures FlatSaving(mb, goal, interest') == FlatSaving(mb, goal, interest)
  {
    assert interest'[..mb] == interest[..mb];
  }

  /** Year y's saving factor is (1 + g)^(y + 1). */
  lemma YearlyFactorAt(years: nat, g: real, y: nat)
    requires y < years
    ensures CumProd(Constant(years, 1.0 + g))[y] == Pow(1.0 + g, y + 1)
  {
    assert Constant(years, 1.0 + g)[..y + 1] == Constant(y + 1, 1.0 + g);
    ProdConstant(y + 1, 1.0 + g);
  }

  /**
    One growth factor per pre-retirement month: the running product of
    (1 + g) over the mb / 12 years, each year's value repeated 12 times.
    Month m gets (1 + g)^(m / 12 + 1), so the first year already carries
    one step of growth.
  */
  function SavingGrowthMultipliers(mb: nat, g: real): (factors: seq<real>)
    ensures |factors| == 12 * (mb / 12)
    ensures forall m :: 0 <= m < |factors| ==> factors[m] == Pow(1.0 + g, m / 12 + 1)
  {
    var years := mb / 12;
    var yearly := CumProd(Constant(years, 1.0 + g));
    assert forall m :: 0 <= m < 12 * years ==> Repeat(yearly, 12)[m] == Pow(1.0 + g, m / 12 + 1) by {
      forall m | 0 <= m < 12 * years
        ensures Repeat(yearly, 12)[m] == Pow(1.0 + g, m / 12 + 1)
      {
        RepeatAt(yearly, 12, m / 12, m % 12);
        YearlyFactorAt(years, g, m / 12);
      }
    }
    Repeat(yearly, 12)
  }

  /** Every growth factor is positive when g > -1. */
  lemma GrowthMultipliersPositive(mb: nat, g: real)
    requires g > -1.0
    ensures AllPositive(SavingGrowthMultipliers(mb, g))
  {
    var factors := SavingGrowthMultipliers(mb, g);
    forall m | 0 <= m < |factors|
      ensures factors[m] > 0.0
    {
      PowPositive(1.0 + g, m / 12 + 1);
    }
  }

  /** One path as the growing-saving solver accepts it. */
  predicate GrowingSavablePath(mb: nat, interest: seq<real>, g: real)
  {
    SavablePath(mb, interest) && mb % 12 == 0 && g > -1.0
  }

  /** Sum over pre-retirement months of growth multiplier times saving growth factor. */
  function WeightedGrowth(mb: nat, interest: seq<real>, g: real): (total: real)
    requires GrowingSavablePath(mb, interest, g)
    ensures total > 0.0
  {
    var mult := PreRetirementMultipliers(mb, interest);
    var factors := SavingGrowthMultipliers(mb, g);
    var weighted := Times(mult, factors);
    GrowthMultipliersPositive(mb, g);
    assert AllPositive(weighted);
    SumPositive(weighted);
    Sum(weighted)
  }

  /**
    The growing schedule: goal / WeightedGrowth in every month, times that
    month's growth factor.
  */
  function GrowthSchedule(mb: nat, goal: real, interest: seq<real>, g: real): (schedule: seq<real>)
    requires GrowingSavablePath(mb, interest, g)
    ensures |schedule| == mb
  {
    Scale(goal / WeightedGrowth(mb, interest, g), SavingGrowthMultipliers(mb, g))
  }

  /** Month m of the schedule, with its growth factor written as a power. */
  lemma ScheduleEntry(mb: nat, goal: real, interest: seq<real>, g: real, m: nat)
    requires GrowingSavablePath(mb, interest, g) && m < mb
    ensures GrowthSchedule(mb, goal, interest, g)[m] == (goal / WeightedGrowth(mb, interest, g)) * Pow(1.0 + g, m / 12 + 1)
  {
  }

  /** The schedule's grown contributions add up to the goal. */
  lemma GrowthScheduleReachesGoal(mb: nat, goal: real, interest: seq<real>, g: real)
    requires GrowingSavablePath(mb, interest, g)
    ensures Sum(Times(GrowthSchedule(mb, goal, interest, g), PreRetirementMultipliers(mb, interest))) == goal
  {
    var mult := PreRetirementMultipliers(mb, interest);
    var factors := SavingGrowthMultipliers(mb, g);
    var first := goal / WeightedGrowth(mb, interest, g);
    ScaleTimes(first, factors, mult);
    SumScale(first, Times(mult, factors));
  }

  /** The growing schedule reads only the first mb interest months. */
  lemma GrowthScheduleReadsOnlyPreRetirementInterest(mb: nat, goal: real, interest: seq<real>, interest': seq<real>, g: real)
    requires GrowingSavablePath(mb, interest, g) && mb <= |interest'|
    requires forall k :: 0 <= k < mb ==> interest'[k] == interest[k]
    ensures GrowingSavablePath(mb, interest', g)
    ensures GrowthSchedule(mb, goal, interest', g) == GrowthSchedule(mb, goal, interest, g)
  {
    assert interest'[..mb] == interest[..mb];
  }

  /** Step between months m and m + 12: one more factor of (1 + g). */
  lemma ScheduleYearStep(mb: nat, goal: real, interest: seq<real>, g: real, m: nat)
    requires GrowingSavablePath(mb, interest, g) && m + 12 < mb
    ensures GrowthSchedule(mb, goal, interest, g)[m + 12] == (1.0 + g) * GrowthSchedule(mb, goal, interest, g)[m]
  {
    var b := 1.0 + g;
    var y := m / 12 + 1;
    ScheduleEntry(mb, goal, interest, g, m);
    ScheduleEntry(mb, goal, interest, g, m + 12);
    assert (m + 12) / 12 + 1 == y + 1;
    StepByFactor(goal / WeightedGrowth(mb, interest, g), b, Pow(b, y),
                 GrowthSchedule(mb, goal, interest, g)[m], GrowthSchedule(mb, goal, interest, g)[m + 12]);
  }

  /** Arithmetic step over plain reals, proved apart from any sequence facts to keep the solver's context small. */
  lemma StepByFactor(first: real, b: real, p: real, e: real, e': real)
    requires e == first * p && e' == first * (b * p)
    ensures e' == b * e
  {
  }

  /**
    The schedule is flat within each year of 12 months and steps up by
    (1 + g) from one year to the next.
  */
  lemma GrowthScheduleSteps(mb: nat, goal: real, interest: seq<real>, g: real)
    requires GrowingSavablePath(mb, interest, g)
    ensures forall m :: 0 <= m && m + 12 < mb ==>
              GrowthSchedule(mb, goal, interest, g)[m + 12] == (1.0 + g) * GrowthSchedule(mb, goal, interest, g)[m]
    ensures forall m :: 0 <= m && m + 1 < mb && m % 12 != 11 ==>
              GrowthSchedule(mb, goal, interest, g)[m + 1] == GrowthSchedule(mb, goal, interest, g)[m]
  {
    forall m | 0 <= m && m + 12 < mb
      ensures GrowthSchedule(mb, goal, interest, g)[m + 12] == (1.0 + g) * GrowthSchedule(mb, goal, interest, g)[m]
    {
      ScheduleYearStep(mb, goal, interest, g, m);
    }
    forall m | 0 <= m && m + 1 < mb && m % 12 != 11
      ensures GrowthSchedule(mb, goal, interest, g)[m + 1] == GrowthSchedule(mb, goal, interest, g)[m]
    {
      ScheduleEntry(mb, goal, interest, g, m);
      ScheduleEntry(mb, goal, interest, g, m + 1);
      assert (m + 1) / 12 == m / 12;
    }
  }

  /** Year-indexed factors (1 + g)^(m / 12): 1 in the first year. */
  function YearIndexedFactors(mb: nat, g: real): (factors: seq<real>)
    ensures |factors| == mb
  {
    seq(mb, m requires 0 <= m < mb => Pow(1.0 + g, m / 12))
  }

  /** The code's growth factors are the year-indexed ones times one extra (1 + g). */
  lemma GrowthMultipliersShifted(mb: nat, g: real)
    requires mb % 12 == 0
    ensures SavingGrowthMultipliers(mb, g) == Scale(1.0 + g, YearIndexedFactors(mb, g))
  {
    var factors := SavingGrowthMultipliers(mb, g);
    var f0 := YearIndexedFactors(mb, g);
    var b := 1.0 + g;
    assert |factors| == mb;
    forall m | 0 <= m < mb
      ensures factors[m] == Scale(b, f0)[m]
    {
      var y := m / 12;
      assert factors[m] == Pow(b, y + 1) == b * Pow(b, y);
    }
  }

  /**
    The schedule starts at goal / sum_m (1 + g)^(m / 12) * mult[m] and is
    that first amount times (1 + g)^(m / 12): the extra (1 + g) carried by
    every growth factor cancels between the solve and the schedule.
  */
  lemma GrowthScheduleFromFirstMonth(mb: nat, goal: real, interest: seq<real>, g: real)
    requires GrowingSavablePath(mb, interest, g)
    ensures Sum(Times(PreRetirementMultipliers(mb, interest), YearIndexedFactors(mb, g))) > 0.0
    ensures var start := goal / Sum(Times(PreRetirementMultipliers(mb, interest), YearIndexedFactors(mb, g)));
            && GrowthSchedule(mb, goal, interest, g)[0] == start
            && GrowthSchedule(mb, goal, interest, g) == Scale(start, YearIndexedFactors(mb, g))
  {
    var f0 := YearIndexedFactors(mb, g);
    var factors := SavingGrowthMultipliers(mb, g);
    var b := 1.0 + g;
    var s0 := Sum(Times(PreRetirementMultipliers(mb, interest), f0));
    var w := WeightedGrowth(mb, interest, g);
    WeightedGrowthShifted(mb, interest, g);
    GrowthMultipliersShifted(mb, g);
    var schedule := GrowthSchedule(mb, goal, interest, g);
    forall m | 0 <= m < mb
      ensures schedule[m] == Scale(goal / s0, f0)[m]
    {
      assert factors[m] == Scale(b, f0)[m];
      CancelCommonFactor(goal, b, s0, w, f0[m], factors[m]);
    }
    assert schedule == Scale(goal / s0, f0);
    assert f0[0] == 1.0;
  }

  /** The solve's weighted sum carries the same extra factor (1 + g) as every growth factor. */
  lemma WeightedGrowthShifted(mb: nat, interest: seq<real>, g: real)
    requires GrowingSavablePath(mb, interest, g)
    ensures var s0 := Sum(Times(PreRetirementMultipliers(mb, interest), YearIndexedFactors(mb, g)));
            s0 > 0.0 && WeightedGrowth(mb, interest, g) == (1.0 + g) * s0
  {
    var mult := PreRetirementMultipliers(mb, interest);
    var f0 := YearIndexedFactors(mb, g);
    GrowthMultipliersShifted(mb, g);
    TimesScale(mult, 1.0 + g, f0);
    SumScale(1.0 + g, Times(mult, f0));
    PositiveFactor(1.0 + g, Sum(Times(mult, f0)), WeightedGrowth(mb, interest, g));
  }

  /** Arithmetic step over plain reals, proved apart from any sequence facts to keep the solver's context small. */
  lemma PositiveFactor(b: real, s: real, w: real)
    requires b > 0.0 && w > 0.0 && w == b * s
    ensures s > 0.0
  {
  }

  /** Arithmetic step over plain reals, proved apart from any sequence facts to keep the solver's context small. */
  lemma CancelCommonFactor(goal: real, b: real, s0: real, w: real, f: real, fm: real)
    requires b > 0.0 && s0 > 0.0 && w == b * s0 && fm == b * f
    ensures (goal / w) * fm == (goal / s0) * f
  {
  }

  /** Without saving growth the growing schedule is the flat saving in every month. */
  lemma GrowthScheduleWithoutGrowth(mb: nat, goal: real, interest: seq<real>)
    requires GrowingSavablePath(mb, interest, 0.0)
    ensures forall m :: 0 <= m < mb ==> GrowthSchedule(mb, goal, interest, 0.0)[m] == FlatSaving(mb, goal, interest)
  {
    var mult := PreRetirementMultipliers(mb, interest);
    var factors := SavingGrowthMultipliers(mb, 0.0);
    forall m | 0 <= m < mb
      ensures factors[m] == 1.0
    {
      PowOne(m / 12 + 1);
    }
    assert Times(mult, factors) == mult;
  }

  /** Every path holds the mb pre-retirement months the saving solver reads. */
  predicate SavableMatrix(mb: nat, annInt: seq<seq<real>>)
  {
    forall i :: 0 <= i < |annInt| ==> SavablePath(mb, annInt[i])
  }

  /**
    Flat saving and growing schedule for every path: goal i belongs to
    path i, and only the first mb interest months of each path are read.
  */
  function GetMonthlySaving(age: int, retirementAge: int, retirementSavingGoal: seq<real>,
                            annInt: seq<seq<real>>, annualSavingGrowth: real)
    : (savings: (seq<real>, seq<seq<real>>))
    requires age < retirementAge && annualSavingGrowth > -1.0
    requires |retirementSavingGoal| == |annInt|
    requires SavableMatrix(MonthsBeforeRetirement(age, retirementAge), annInt)
    ensures |savings.0| == |annInt| && |savings.1| == |annInt|
    ensures forall i :: 0 <= i < |annInt| ==>
              && SavablePath(MonthsBeforeRetirement(age, retirementAge), annInt[i])
              && savings.0[i] == FlatSaving(MonthsBeforeRetirement(age, retirementAge), retirementSavingGoal[i], annInt[i])
              && GrowingSavablePath(MonthsBeforeRetirement(age, retirementAge), annInt[i], annualSavingGrowth)
              && savings.1[i] == GrowthSchedule(MonthsBeforeRetirement(age, retirementAge), retirementSavingGoal[i], annInt[i], annualSavingGrowth)
  {
    var mb := MonthsBeforeRetirement(age, retirementAge);
    assert mb % 12 == 0;
    assert forall i :: 0 <= i < |annInt| ==> GrowingSavablePath(mb, annInt[i], annualSavingGrowth) by {
      forall i | 0 <= i < |annInt|
        ensures GrowingSavablePath(mb, annInt[i], annualSavingGrowth)
      {
        assert SavablePath(mb, annInt[i]);
      }
    }
    var flat := seq(|annInt|, i requires 0 <= i < |annInt| => FlatSaving(mb, retirementSavingGoal[i], annInt[i]));
    var growth := seq(|annInt|, i requires 0 <= i < |annInt| => GrowthSchedule(mb, retirementSavingGoal[i], annInt[i], annualSavingGrowth));
    (flat, growth)
  }

  // ---------------------------------------------------------------------
  // Contribution timing
  // ---------------------------------------------------------------------

  /**
    Growth of month m's contribution from the month it is paid up to the
    retirement date: (1 + interest) over months m..mb-1. The solver above
    weighs month m by PreRetirementMultipliers instead, the growth over
    months 0..m, which is the interest earned before the contribution was
    paid.
  */
  function GrowthToRetirement(mb: nat, interest: seq<real>): (mult: seq<real>)
    requires mb <= |interest| && AboveMinusOne(interest[..mb])
    ensures |mult| == mb && AllPositive(mult)
    ensures forall m :: 0 <= m < mb ==> mult[m] == Prod(OnePlus(interest[m..mb]))
  {
    GrowthToRetirementPositive(mb, interest);
    seq(mb, m requires 0 <= m < mb => Prod(OnePlus(interest[m..mb])))
  }

  /** Every growth to retirement is positive when interest stays above -100%. */
  lemma GrowthToRetirementPositive(mb: nat, interest: seq<real>)
    requires mb <= |interest| && AboveMinusOne(interest[..mb])
    ensures forall m :: 0 <= m < mb ==> Prod(OnePlus(interest[m..mb])) > 0.0
  {
    forall m | 0 <= m < mb
      ensures Prod(OnePlus(interest[m..mb])) > 0.0
    {
      assert forall t :: 0 <= t < mb - m ==> interest[m..mb][t] == interest[..mb][m + t];
      ProdPositive(OnePlus(interest[m..mb]));
    }
  }

  /**
    The growth to retirement accumulates backwards from the last month:
    the last contribution earns one month, and each earlier one earns its
    own month on top of the next one's growth.
  */
  lemma GrowthToRetirementSteps(mb: nat, interest: seq<real>)
    requires 0 < mb <= |interest| && AboveMinusOne(interest[..mb])
    ensures GrowthToRetirement(mb, interest)[mb - 1] == 1.0 + interest[mb - 1]
    ensures forall m :: 0 <= m && m + 1 < mb ==>
              GrowthToRetirement(mb, interest)[m] == (1.0 + interest[m]) * GrowthToRetirement(mb, interest)[m + 1]
  {
    var mult := GrowthToRetirement(mb, interest);
    assert OnePlus(interest[mb - 1..mb])[1..] == [];
    assert Prod(OnePlus(interest[mb - 1..mb])) == (1.0 + interest[mb - 1]) * Prod([]);
    forall m | 0 <= m && m + 1 < mb
      ensures mult[m] == (1.0 + interest[m]) * mult[m + 1]
    {
      assert OnePlus(interest[m..mb])[1..] == OnePlus(interest[m + 1..mb]);
    }
  }

  /** The constant monthly saving whose contributions, each grown to retirement, add up to the goal. */
  function FlatSavingToRetirement(mb: nat, goal: real, interest: seq<real>): (saving: real)
    requires SavablePath(mb, interest)
    ensures Sum(Scale(saving, GrowthToRetirement(mb, interest))) == goal
  {
    var mult := GrowthToRetirement(mb, interest);
    SumPositive(mult);
    SumScale(goal / Sum(mult), mult);
    goal / Sum(mult)
  }

  /** The growing schedule solved with each contribution grown to retirement. */
  function GrowthScheduleToRetirement(mb: nat, goal: real, interest: seq<real>, g: real): (schedule: seq<real>)
    requires GrowingSavablePath(mb, interest, g)
    ensures |schedule| == mb
  {
    var factors := SavingGrowthMultipliers(mb, g);
    var weighted := Times(GrowthToRetirement(mb, interest), factors);
    GrowthMultipliersPositive(mb, g);
    SumPositive(weighted);
    Scale(goal / Sum(weighted), factors)
  }

  /** The corrected schedule's contributions, each grown to retirement, add up exactly to the goal. */
  lemma GrowthScheduleToRetirementReachesGoal(mb: nat, goal: real, interest: seq<real>, g: real)
    requires GrowingSavablePath(mb, interest, g)
    ensures Sum(Times(GrowthScheduleToRetirement(mb, goal, interest, g), GrowthToRetirement(mb, interest))) == goal
  {
    var mult := GrowthToRetirement(mb, interest);
    var factors := SavingGrowthMultipliers(mb, g);
    GrowthMultipliersPositive(mb, g);
    SumPositive(Times(mult, factors));
    var first := goal / Sum(Times(mult, factors));
    ScaleTimes(first, factors, mult);
    SumScale(first, Times(mult, factors));
  }

  /**
    At a constant rate the two timings weigh the months by the same powers
    (1 + r)^1 .. (1 + r)^mb in opposite order, so the flat savings agree;
    the difference shows only on paths whose rate varies.
  */
  lemma TimingAgreesAtConstantRate(mb: nat, goal: real, interest: seq<real>, r: real)
    requires SavablePath(mb, interest)
    requires forall k :: 0 <= k < mb ==> interest[k] == r
    ensures GrowthToRetirement(mb, interest) == Reverse(PreRetirementMultipliers(mb, interest))
    ensures FlatSavingToRetirement(mb, goal, interest) == FlatSaving(mb, goal, interest)
  {
    var early := PreRetirementMultipliers(mb, interest);
    var late := GrowthToRetirement(mb, interest);
    forall m | 0 <= m < mb
      ensures late[m] == Reverse(early)[m]
    {
      ProdOfConstantRates(interest[m..mb], r);
      ProdOfConstantRates(interest[..mb - m], r);
    }
    assert late == Reverse(early);
    SumReverse(early);
  }

  /**
    Two months, 100% interest in month 0 and none in month 1, goal 12.
    The program's multipliers are [2, 2] and its flat saving is 3; grown
    from the month each payment is made, the multipliers are [2, 1], so
    3 a month reaches only 9, and the saving that reaches 12 is 4.
  */
  lemma ContributionTimingExample()
    ensures SavablePath(2, [1.0, 0.0])
    ensures PreRetirementMultipliers(2, [1.0, 0.0]) == [2.0, 2.0]
    ensures GrowthToRetirement(2, [1.0, 0.0]) == [2.0, 1.0]
    ensures FlatSaving(2, 12.0, [1.0, 0.0]) == 3.0
    ensures Sum(Scale(FlatSaving(2, 12.0, [1.0, 0.0]), GrowthToRetirement(2, [1.0, 0.0]))) == 9.0
    ensures FlatSavingToRetirement(2, 12.0, [1.0, 0.0]) == 4.0
  {
    var interest := [1.0, 0.0];
    assert interest[..2] == interest;
    assert interest[..1] == [1.0];
    assert interest[1..2] == [0.0];
    assert OnePlus(interest) == [2.0, 1.0];
    assert OnePlus([1.0]) == [2.0];
    assert OnePlus([0.0]) == [1.0];
    assert Prod([1.0]) == 1.0 * Prod([]);
    assert Prod([2.0]) == 2.0 * Prod([]);
    assert Prod([2.0, 1.0]) == 2.0 * Prod([1.0]);
    assert PreRetirementMultipliers(2, interest) == [2.0, 2.0];
    assert GrowthToRetirement(2, interest) == [2.0, 1.0];
  }
}
