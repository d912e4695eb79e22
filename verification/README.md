# Retirement projection of the LINE finance bot, in Dafny

This project models the retirement-projection arithmetic of the LINE finance bot (`line_bot_finance.py`, lines 20-91). The arithmetic has four parts:

- **Simple cash.** The undiscounted baseline is `years * 12 * spend`.
- **Rate profile.** It builds two matrices of monthly rates, inflation and interest. There is one row per simulated path and one column per month, from now to the end of retirement. Every cell is `(z * std + mean) / 12`, where `z` is a standard-normal draw.
- **Required capital.** For each path, it computes the capital needed at the retirement date.
  - Each post-retirement month's spending is inflated by the running product of `(1 + inflation)` from month 0.
  - It is then discounted by the running product of `(1 + interest)`, restarted at the retirement month.
  - The capital is the sum of these values.
- **Saving.** For each path's capital goal, there are two saving plans:
  - a flat monthly saving, solved from `goal = c * sum(mult)`, where `mult[m]` is the running product of `(1 + interest)` from month 0 through month m (line 75);
  - a schedule that grows by `(1 + g)` every 12 months.

Everything is over `real`. The draws `z` are inputs. Rows are `seq<real>`, matrices are `seq<seq<real>>`, and `mb` is the number of months before retirement.

- `RealSeq` (`real_seq.dfy`) holds the array primitives the code is written with: `Sum`, `Prod`, `Pow`, the cumulative product `CumProd`, `Repeat` (`np.repeat` along a row), and element-wise `OnePlus`, `Scale`, `Times` and `Over`. It also holds their lemmas.
- `LineBotFinance` (`line_bot_finance.dfy`) holds the four operations and the properties proved about them.

The growth-factor array at line 86 is `(1 + g)^(m div 12 + 1)`, counting months from 0, so the first year already carries one factor of `(1 + g)`. The model follows the code.

The extra factor cancels between the solve (line 88) and the schedule (line 89). `GrowthScheduleFromFirstMonth` proves that the schedule equals `goal / sum_m mult[m] * (1 + g)^(m div 12)` times `(1 + g)^(m div 12)`. This is the same schedule you get by reading the first year's factor as 1.

## Model

| member | source | states |
|---|---|---|
| LineBotFinance.SimpleCashRequiredAtRetirement | line_bot_finance.py:20-26 | For a non-negative number of years, the baseline `years * 12 * spend` equals the plain total of today's spending over every post-retirement month. |
| LineBotFinance.MonthlyRates | line_bot_finance.py:36-37 | There is one rate row per draw row, of the same width. Each cell is `(z * std + mean) / 12` from its own draw. |
| LineBotFinance.InflationAndInvestmentProfile | line_bot_finance.py:28-39 | Both matrices have `num_sim` rows and `(retirement_age - age) * 12 + years_after_retirement * 12` columns. Every inflation and interest cell is `(z * std + mean) / 12` with its own assumptions. |
| LineBotFinance.ProfileWithoutVolatility | line_bot_finance.py:33-37 | When both standard deviations are 0, every row of each matrix is the constant row `mean / 12`. |
| LineBotFinance.InflationMultipliers | line_bot_finance.py:51 | The post-retirement slice of the inflation running product has one price level per month after `mb`. |
| LineBotFinance.InflationMultipliersAt | line_bot_finance.py:51 | Post-retirement price level j is the product of `(1 + inflation)` over months `0..mb+j`. |
| LineBotFinance.InterestMultipliers | line_bot_finance.py:54-55 | The interest running product restarted at retirement has one factor per post-retirement month. Every factor is positive when interest stays above -100%. |
| LineBotFinance.InterestMultipliersAt | line_bot_finance.py:54-55 | Discount factor j is the product of `(1 + interest)` over months `mb..mb+j`. |
| LineBotFinance.CapitalMatchesFormula | line_bot_finance.py:47-62 | On each path, the capital computed with running products equals `sum_j spend * prod_{k<=mb+j}(1+inf[k]) / prod_{mb<=k<=mb+j}(1+int[k])`. So month j uses inflation over months `0..mb+j` and interest over months `mb..mb+j`. |
| LineBotFinance.FvCashRequiredAtRetirement | line_bot_finance.py:41-64 | The result has one value per path. Value i is the explicit formula applied to row i of each matrix alone. |
| LineBotFinance.CapitalIgnoresPreRetirementInterest | line_bot_finance.py:54-55 | Two interest rows that agree from month `mb` on give the same capital. Interest in the first `mb` months never matters. |
| LineBotFinance.CapitalScalesWithPreRetirementInflation | line_bot_finance.py:51 | Changing a pre-retirement month's inflation from `r` to `x` multiplies the capital by `(1 + x) / (1 + r)`. |
| LineBotFinance.InflationMultipliersUpdate | line_bot_finance.py:51 | Changing a pre-retirement month's inflation rescales every post-retirement price level by the same ratio `(1 + x) / (1 + r)`. |
| LineBotFinance.PreRetirementInflationMatters | line_bot_finance.py:51-62 | With positive spending and rates above -100%, any different inflation rate in a pre-retirement month gives a different capital. |
| LineBotFinance.PathCapital | line_bot_finance.py:51-62 | The capital of one path is strictly positive when spending is positive, all rates are above -100%, and at least one post-retirement month exists. |
| LineBotFinance.CapitalLinearInSpending | line_bot_finance.py:58-62 | The capital for spending `c * spend` is `c` times the capital for `spend`. |
| LineBotFinance.CapitalWithZeroRates | line_bot_finance.py:51-62 | With every rate 0, the capital is the number of post-retirement months times `spend`. |
| LineBotFinance.RequiredCapitalWithZeroRatesIsSimpleCash | line_bot_finance.py:41-64 | Take zero-rate matrices whose width is exactly `mb + years_after_retirement * 12`. Every path's required capital then equals `simple_cash_required_at_retirement(years_after_retirement, spend)`. |
| LineBotFinance.CapitalWithConstantRates | line_bot_finance.py:51-62 | At constant monthly rates `a` and `b`, the capital is the annuity value `sum_j spend (1+a)^(mb+j+1) / (1+b)^(j+1)`. |
| LineBotFinance.PreRetirementMultipliers | line_bot_finance.py:74-75 | The solver's multipliers have `mb` entries, all positive. Entry m is the product of `(1 + interest)` over months `0..m`. |
| LineBotFinance.FlatSaving | line_bot_finance.py:82 | The flat saving times the sum of the growth multipliers is exactly the goal. |
| LineBotFinance.FlatSavingUnique | line_bot_finance.py:78-82 | A constant monthly contribution reaches the goal if and only if it is the flat saving. |
| LineBotFinance.FlatSavingReadsOnlyPreRetirementInterest | line_bot_finance.py:74 | Interest rows that agree on the first `mb` months give the same flat saving. |
| LineBotFinance.YearlyFactorAt | line_bot_finance.py:86 | Year y's entry in the running product of `(1 + g)` is `(1 + g)^(y + 1)`. |
| LineBotFinance.SavingGrowthMultipliers | line_bot_finance.py:86 | The factor array has `12 * (mb div 12)` entries. Entry m is `(1 + g)^(m div 12 + 1)`. |
| LineBotFinance.GrowthMultipliersPositive | line_bot_finance.py:86 | Every growth factor is positive when `g > -1`. |
| LineBotFinance.WeightedGrowth | line_bot_finance.py:88 | The divisor `sum(mult * factor)` of the first-month solve is positive, so the solve is defined. |
| LineBotFinance.GrowthSchedule | line_bot_finance.py:88-89 | The growing schedule has one entry per pre-retirement month. |
| LineBotFinance.GrowthScheduleReachesGoal | line_bot_finance.py:88-89 | The schedule's contributions, each weighted by the solver's multiplier `mult[m]`, add up exactly to the goal. |
| LineBotFinance.GrowthScheduleReadsOnlyPreRetirementInterest | line_bot_finance.py:74 | Interest rows that agree on the first `mb` months give the same growing schedule. |
| LineBotFinance.GrowthScheduleSteps | line_bot_finance.py:86-89 | Entry `m + 12` is `(1 + g)` times entry m. Entries within the same 12-month year are equal. |
| LineBotFinance.GrowthMultipliersShifted | line_bot_finance.py:86 | The factor array is `(1 + g)` times the year-indexed factors `(1 + g)^(m div 12)`. |
| LineBotFinance.GrowthScheduleFromFirstMonth | line_bot_finance.py:86-89 | The first scheduled amount, the value reported from `growth_saving[:, 0]`, is `goal / sum_m mult[m] * (1+g)^(m div 12)`. The whole schedule is that amount times `(1 + g)^(m div 12)`. |
| LineBotFinance.GrowthScheduleWithoutGrowth | line_bot_finance.py:82-89 | With `g = 0`, every month of the growing schedule equals the flat saving. |
| LineBotFinance.GetMonthlySaving | line_bot_finance.py:67-91 | The result has one flat saving and one schedule per path, for both arrays. Path i's values are `FlatSaving` and `GrowthSchedule` of goal i and interest row i. |
| LineBotFinance.GrowthToRetirement | line_bot_finance.py:74-75 | Corrected weighting: month m's contribution grows by the product of `(1 + interest)` over months `m..mb-1`. Every weight is positive. |
| LineBotFinance.GrowthToRetirementSteps | line_bot_finance.py:74-75 | The corrected weights accumulate backwards. The last month's weight is `1 + interest[mb-1]`, and each earlier weight is `(1 + interest[m])` times the next one. |
| LineBotFinance.FlatSavingToRetirement | line_bot_finance.py:82 | Corrected flat saving: the contributions, each grown from its payment month to retirement, add up exactly to the goal. |
| LineBotFinance.GrowthScheduleToRetirement | line_bot_finance.py:88-89 | The corrected growing schedule has one entry per pre-retirement month. |
| LineBotFinance.GrowthScheduleToRetirementReachesGoal | line_bot_finance.py:88-89 | The corrected schedule's contributions, each grown from its payment month to retirement, add up exactly to the goal. |
| LineBotFinance.TimingAgreesAtConstantRate | line_bot_finance.py:74-82 | At a constant pre-retirement rate, the corrected weights are the program's multipliers in reverse order, and the two flat savings are equal. |
| LineBotFinance.ContributionTimingExample | line_bot_finance.py:74-82 | Take 2 months, interest `[1, 0]` and goal 12. The program's multipliers are `[2, 2]`, its flat saving is 3, and 3 a month grown to retirement reaches only 9. The corrected weights are `[2, 1]`, and the corrected saving is 4. |

## Left out

- Random generation (`np.random.randn`, lines 36-37) is not modelled. The standard-normal draws are input matrices.
- Percentile reduction, rounding and text formatting (lines 206, 211-212) are not modelled. The model stops at the per-path arrays.
- IEEE floating point is not modelled. The model is over exact reals, so its equalities are exact where the program's hold only up to rounding.
- Not modelled:
  - the chat-webhook transport, signature checks and secrets loading;
  - `get_event_component`;
  - the message handlers and the per-user profile dictionary.
  They are I/O and message dispatch around the arithmetic.
- InflationAndInvestmentProfile: requires `age <= retirement_age` and `0 <= years_after_retirement`. Otherwise the width `(retirement_age - age) * 12 + years_after_retirement * 12` can be negative, and NumPy rejects the shape. When a later current age still leaves a non-negative width (`age - retirement_age <= years_after_retirement`), NumPy builds a narrower matrix, whose columns no longer split into the months before and after retirement. The model does not cover either case.
- FvCashRequiredAtRetirement: requires `age <= retirement_age`. With a later current age, `mb` is negative, and the slice at line 51 keeps the last `-mb` columns instead of dropping the first ones. The model does not reproduce this.
- InflationAndInvestmentProfile: the default assumptions `(0.015, 0.01)` for inflation and `(0.03, 0.1)` for interest (lines 29-30) are not modelled. The model always takes both pairs as parameters. This loses nothing for the program, whose only call (line 202) passes both.
- GetMonthlySaving: requires `age < retirement_age`. At equal ages `mb` is 0, and line 82 divides by an empty sum, which is 0. With a later current age, the shape asked for at line 86 is negative, which NumPy rejects.
- FvCashRequiredAtRetirement, GetMonthlySaving: require every interest rate they read to be above -100%. For the capital these are the post-retirement months; for the saving they are the first `mb` months. Outside that range the program behaves as follows:
  - A rate of exactly -100% makes one factor 0. Every later running product is then 0. In the capital, line 61 divides by 0, which gives infinities or NaN. In the saving, every later multiplier is 0.
  - A rate below -100% makes a factor negative. The products change sign, and the results are finite numbers of either sign. For example, with `mb = 1`, interest `[-3.0]` and goal 4, line 82 gives a flat saving of -2.0.
  - With negative factors, a sum of multipliers can also cancel to 0.
  - Such rates are reachable: the user sets the interest mean and standard deviation (lines 176-179, 195), and every draw is unbounded.
  - The model covers only positive factors.
- GetMonthlySaving: requires `annual_saving_growth > -1`. At exactly -1 every growth factor is 0, and line 88 divides by 0. Below -1 the factors alternate in sign, and the result is finite but of either sign. The program itself passes 0.05 (line 209).
- FvCashRequiredAtRetirement: `years_after_retirement` is a parameter of the function at line 41, but its value does not enter the computation (line 48 computes `months_after_retirement` and never uses it). The post-retirement horizon is the matrix width minus `mb`, in the program and in the model.
- SavingGrowthMultipliers: `np.int(months_before_retirement / 12)` (line 86) is integer division in the model. It is exact because `mb` is always a multiple of 12.
- Rows of different widths are allowed by the per-path functions. NumPy's requirement of rectangular arrays is stated only where the rate profile is built.

## Findings

| source | as written | input that shows it | evidently intended | confidence | as-written member | corrected member |
|---|---|---|---|---|---|---|
| line_bot_finance.py:74-75, 82, 88 | Line 75 weighs month m's contribution by the running product of `(1 + interest)` over months `0..m`. That is the growth from today up to the payment, not the growth of the payment itself. So each contribution gets the interest earned before it was paid, and none of the interest earned after. | Two months before retirement, interest `[1.0, 0.0]`, goal 12. The program's multipliers are `[2, 2]`, and its flat saving is 3. Grown from the month it is paid, 3 a month reaches only 9. | Month m's contribution grows over months `m..mb-1` (`GrowthToRetirement`). The flat saving that reaches 12 is then 4, and the growing schedule is solved with the same weights. At a constant rate both weightings give the same sum, so the flat saving agrees there. | medium; not executed | LineBotFinance.ContributionTimingExample | LineBotFinance.FlatSavingToRetirement |

The as-written half is the program's solver: `PreRetirementMultipliers`, `FlatSaving`, `GrowthSchedule` and `GetMonthlySaving`. `ContributionTimingExample` exhibits the difference on the input above.

The corrected half consists of:
- `GrowthToRetirement` (lines 74-75), whose backward accumulation is `GrowthToRetirementSteps`;
- `FlatSavingToRetirement` (line 82), whose contributions grown to retirement reach the goal;
- `GrowthScheduleToRetirement` (lines 88-89), which reaches the goal by `GrowthScheduleToRetirementReachesGoal`.

`TimingAgreesAtConstantRate` proves that the two weightings are each other's reverse at a constant rate, so the flat savings agree there. `GetMonthlySaving` keeps the program's weighting, because it models what the program computes.

