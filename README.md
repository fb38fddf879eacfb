# Financial calculator core, modelled in Dafny

This project models the arithmetic engine and the small pieces of state logic
in `script.js` of a browser-based financial calculator, and proves what each
piece computes. The modelled pieces are:

- the net present value of a list of cash flows (`calculateNPV`);
- the internal rate of return found by bisection (`calculateIRR`);
- the level monthly payment and the rows of the amortization table
  (`generateAmortizationTable`);
- the NPV sensitivity sweep over eleven rates (`performSensitivityAnalysis`);
- simple interest, and compound interest over whole years;
- the input gates that decide whether a calculation runs: list parsing,
  `validateCashFlows` and the three checks of the submit handler;
- the Prev/Next navigation of the first-visit tutorial;
- the quoting of history items in the CSV export.

All numbers are exact `real`s, not IEEE doubles. A number field that
`parseFloat` cannot read (NaN) is `None` of an `Option<real>`. Whole-number
powers `(1+r)^k` are the recursive `Powers.Pow`.

Modules, one per file:

| file | module | models |
|---|---|---|
| `wrappers.dfy` | `Wrappers` | `Option`, standing for NaN and `null` |
| `power.dfy` | `Powers` | `Math.pow` with a natural exponent, and its algebra |
| `npv.dfy` | `NetPresentValue` | `calculateNPV` |
| `irr.dfy` | `InternalRateOfReturn` | `calculateIRR`, and the search with its width exit corrected |
| `irr_example.dfy` | `TenPercentExample` | `calculateIRR` on the flows [-1000, 1100] |
| `amortization.dfy` | `Amortization` | the payment formula and `generateAmortizationTable` |
| `sensitivity.dfy` | `Sensitivity` | `performSensitivityAnalysis` |
| `interest.dfy` | `Interest` | the simple and compound interest branches |
| `validation.dfy` | `Validation` | list parsing, `validateCashFlows`, the submit-handler checks |
| `tutorial.dfy` | `Tutorial` | `tutorialStep`, `showTutorialStep` and the Prev/Next handlers |
| `csv.dfy` | `CsvExport` | the quoting in `downloadHistoryAsCSV` |

Behaviour worth knowing, all proved:

- The IRR loop computes `InternalRateOfReturn.Bisect`, the same search
  written as a recursive function. It cannot use its budget of 100 attempts.
  The bracket `[-0.99, 1.99]` is 2.98 wide. After the 15th halving it is
  narrower than 0.0001, so a search that has not found a root by then breaks
  there and returns `null`.
- A result that is not `null` is a rate strictly inside (-99%, 199%) where
  |NPV| < 0.0001. It comes only from a visited midpoint whose |NPV| is below
  that tolerance; after a sign change every other search ends at the width
  exit with `null`. For [-1000, 1100], whose rate is exactly 10%, no visited
  midpoint is that close, and the search returns `null` (see "Findings").
- Where a search returns a rate, the corrected search returns the same rate:
  the two differ only at the width exit.
- The payment formula fails (NaN or Infinity in the source, `None` here)
  exactly when the monthly rate is 0 or the term rounds to 0 months. A zero
  rate gives 0/0, which is NaN; a positive rate over 0 months divides by 0
  and gives Infinity, which the `isFinite` test (script.js:648) rejects.
- With the level payment the balance reaches exactly 0 after the last month.
  Before that it falls strictly every month and never goes negative, so the
  `Math.max(0, balance)` in the table never changes a value in exact
  arithmetic.

Where the code departs from what a user of the calculator would expect, the
model follows the code:

- One would expect `validateCashFlows` to reject a list with an unreadable
  entry. The list reaches it already parsed, with the NaNs dropped
  (script.js:492-497), so its per-entry tests can never fail and the gate is
  just "the list is non-empty".
- The textbook IRR of [-1000, 1100] is 10%, since 1100 / 1.1 = 1000. The code
  returns `null` for it (script.js:96-98). `InternalRateOfReturn.CalculateIrr`
  models the code as written; the corrected search, whose width exit returns
  the last midpoint, is `InternalRateOfReturn.BisectFixed`, and it returns 10
  within 0.01.
- A loan at 0% interest has the textbook payment amount / months. The code's
  formula is 0/0 there, and the amortization branch reports an error instead
  (script.js:648; `Amortization.PaymentFailsIff`). The model keeps that error
  path rather than adding a precondition.

## Model

| member | source | states |
|---|---|---|
| NetPresentValue.Npv | script.js:72-77 | definition of the fold; see NpvIsDiscountedSum, NpvAppend and NpvSingle |
| NetPresentValue.NpvIsDiscountedSum | script.js:72-77 | the `reduce` fold equals the textbook sum of flow i discounted by (1+rate)^(i+1) |
| NetPresentValue.NpvFromIsSuffixSum | script.js:72-77 | the fold from index i with accumulator acc adds the sum of the remaining discounted flows to acc |
| NetPresentValue.NpvEmpty | script.js:72-77 | the NPV of no flows is 0, the fold's initial value |
| NetPresentValue.NpvAppend | script.js:72-77 | appending flow x adds x discounted by (1+rate)^(n+1), where n is the number of earlier flows |
| NetPresentValue.NpvSingle | script.js:73-75 | the first flow is discounted one full period: npv(r, [x]) = x/(1+r) |
| NetPresentValue.NpvNonNegative | script.js:72-77 | at a non-negative rate, non-negative flows have a non-negative NPV |
| NetPresentValue.TenPercentIsRoot | script.js:72-77 | paying 1000 and receiving 1100 one period later has NPV exactly 0 at 10% |
| InternalRateOfReturn.CalculateIrr | script.js:80-99 | the loop returns what `Bisect` gives for the initial bracket and budget, after null for flows without a negative or a positive entry; any result is 100*m with m in (-0.99, 1.99) and \|npv(m)\| < 0.0001; at most 15 passes, below the budget of 100; after a sign change, null comes only from the width exit at pass 15 |
| InternalRateOfReturn.Bisect | script.js:90-98 | definition of the loop from a bracket and a budget; see CalculateIrr, BisectFindsRoot, BudgetIrrelevant and TenPercentExample.ExampleMissedFrom |
| InternalRateOfReturn.Irr | script.js:80-99 | definition: null without a negative and a positive flow (script.js:86-88), else the search from [-0.99, 1.99] with 100 attempts; see CalculateIrr, IrrFindsRoot, BudgetNeverBinds and TenPercentExample.ExampleMissed |
| InternalRateOfReturn.BisectFixed | script.js:90-98 | the corrected loop, whose width exit returns the last midpoint; see BisectFixedNearRoot and FixedAgreesWhenFound |
| InternalRateOfReturn.IrrFixed | script.js:80-99 | the corrected calculateIRR; see IrrFixedNearRoot, IrrFixedAgreesWhenFound and TenPercentExample.ExampleFixed |
| InternalRateOfReturn.FixedAgreesWhenFound | script.js:90-98 | from any bracket, whenever the loop as written returns a rate, the corrected loop returns the same rate: they differ only at the width exit |
| InternalRateOfReturn.IrrFixedAgreesWhenFound | script.js:80-99 | whenever calculateIRR returns a rate, the corrected calculateIRR returns the same rate |
| InternalRateOfReturn.NarrowOnlyAtLastPass | script.js:96 | after k halvings of the 2.98-wide bracket the width is below 0.0001 iff k = 15 |
| InternalRateOfReturn.BisectFindsRoot | script.js:90-98 | from any bracket, a result of the loop is a midpoint inside that bracket, times 100, where \|npv\| < 0.0001 |
| InternalRateOfReturn.IrrFindsRoot | script.js:80-99 | calculateIRR's result, when not null, is a rate in (-99, 199) percent where \|npv\| < 0.0001 |
| InternalRateOfReturn.BudgetIrrelevant | script.js:84-96 | from pass k on, any budget of at least 15 - k attempts gives the same result |
| InternalRateOfReturn.BudgetNeverBinds | script.js:84-96 | the search with 100 attempts returns the same as with 15 |
| InternalRateOfReturn.BisectFixedNearRoot | script.js:90-98 | with the width exit returning its last midpoint, an NPV that changes sign once at root gives a result whose npv or whose distance to root is below 0.0001 |
| InternalRateOfReturn.IrrFixedNearRoot | script.js:80-99 | the corrected calculateIRR on flows with a sign change whose NPV falls through root returns a rate in (-99, 199) percent with \|npv\| < 0.0001 or within 0.0001 of root |
| TenPercentExample.ExampleNpv | script.js:72-77 | the NPV of [-1000, 1100] times (1+m)^2 is 100 - 1000m |
| TenPercentExample.ExampleDecreasing | script.js:72-77 | across the bracket the NPV of [-1000, 1100] is positive exactly below 10% |
| TenPercentExample.ExampleAwayFromRoot | script.js:72-77 | where \|100 - 1000m\| >= 0.03 the NPV of [-1000, 1100] is at least 0.0001 in size |
| TenPercentExample.GridAwayFromRoot | script.js:91 | every inner point -0.99 + 2.98k/2^15 that the bisection can visit is more than 3e-5 from 0.1 |
| TenPercentExample.ExampleMissedFrom | script.js:90-98 | from a bracket of grid points, the loop returns null for [-1000, 1100] |
| TenPercentExample.ExampleMissed | script.js:80-99 | 10% is an exact root of [-1000, 1100], yet calculateIRR returns null for it |
| TenPercentExample.ExampleFixed | script.js:80-99 | with the width exit returning its last midpoint, [-1000, 1100] gives 10% within 0.01 |
| Amortization.MonthlyPayment | script.js:645-648 | definition; see PaymentFailsIff, MonthlyPaymentIsLevel and LevelPaymentPaysOff |
| Amortization.BalanceAfter | script.js:109-116 | definition of the loop's running balance; see GenerateAmortizationTable, LevelBalance and LevelBalanceFalls |
| Amortization.MonthsIn | script.js:644 | Math.round(time*12) is within half a month of time*12, and not negative for a positive time |
| Amortization.PaymentFailsIff | script.js:645-648 | for a non-negative rate, the payment formula fails iff the monthly rate is 0 or there are no months |
| Amortization.MonthlyPaymentIsLevel | script.js:645-647 | the formula's result is exactly the payment p with p((1+r)^n - 1) = A r (1+r)^n |
| Amortization.GenerateAmortizationTable | script.js:102-140 | exactly `months` rows, numbered 1..months; each row's interest is balance*rate and interest + principal = payment; the balance drops by the principal; the reported balance is max(0, balance) >= 0; the principals sum to the loan less the final balance |
| Amortization.ScheduleRowStep | script.js:112-114 | one pass of the loop produces the row the schedule predicate describes for that month |
| Amortization.LevelBalance | script.js:112-114 | under the level payment the balance after k months, times (1+r)^n - 1, is A((1+r)^n - (1+r)^k) |
| Amortization.LevelBalanceStep | script.js:112-114 | one month of the loop keeps the closed form of LevelBalance |
| Amortization.LevelPaymentPaysOff | script.js:645-647 | with the formula's payment, the balance after the last month is exactly 0 |
| Amortization.LevelPaysOff | script.js:645-647 | any level payment leaves a balance of exactly 0 after the last month |
| Amortization.LevelBalanceFalls | script.js:109-114 | for a positive loan and rate, 0 <= balance(k+1) < balance(k) <= loan in every month of the term |
| Amortization.LevelFalls | script.js:109-114 | for any level payment on a positive loan and rate, 0 <= balance(k+1) < balance(k) <= loan in every month of the term |
| Interest.SimpleInterest | script.js:577-578 | the total is the principal plus the interest; at a zero rate or time the total is the principal |
| Interest.SimpleInterestAdditive | script.js:577 | simple interest over t1 + t2 years is the interest over t1 plus the interest over t2 |
| Interest.CompoundInterest | script.js:610-611 | the total is the principal plus the interest; with no years or a zero rate it is the principal and the interest 0; a non-negative principal at a non-negative rate never loses |
| Interest.CompoundIsReinvested | script.js:610 | the total is what reinvesting each year's total at the same rate for the next year gives |
| Interest.CompoundOneYear | script.js:610-611 | one year of compounding equals one year of simple interest |
| Interest.CompoundAtLeastSimple | script.js:610 | for a non-negative principal and rate, the compound total is at least the simple total (Bernoulli) |
| Sensitivity.PerformSensitivityAnalysis | script.js:143-156 | eleven rates rateMin + i(rateMax - rateMin)/10, with npvs[i] = npv(rates[i]/100, flows) |
| Sensitivity.SampleRate | script.js:150 | definition of sample i, rateMin + i * stepSize; see SweepEndpoints, SweepEvenlySpaced, SweepIncreasing and SweepWithinRange |
| Sensitivity.SweepEndpoints | script.js:144-150 | the first sample is rateMin and the last is exactly rateMax |
| Sensitivity.SweepEvenlySpaced | script.js:144-150 | consecutive samples are a tenth of the range apart |
| Sensitivity.SweepIncreasing | script.js:144-150 | any two samples increase iff rateMin < rateMax |
| Sensitivity.SweepNotIncreasing | script.js:144-150 | if rateMax <= rateMin the samples never rise |
| Sensitivity.SweepWithinRange | script.js:144-150 | every sample of an ordered range lies between its ends |
| Sensitivity.HintedSweep | script.js:144-150 | the range 2,8 samples 2, 2.6, ..., 8 |
| Sensitivity.AboveTotalLossIsDefined | script.js:152 | an ordered range above -100% gives every sample a finite NPV |
| Validation.ParseNumbers | script.js:492-497 | the parsed list is no longer than the fields, and a number is in it iff some field parses as that number |
| Validation.ParseNumbersOne | script.js:495-496 | a field that parses gives a one-number list, a NaN field nothing |
| Validation.ParseNumbersAppend | script.js:494-496 | parsing the fields of two consecutive parts gives the two parsed lists joined in order |
| Validation.ParseNumbersEmptyIff | script.js:492-497 | the parsed list is empty iff no field parses as a number |
| Validation.ParseNumbersKeepsNumbers | script.js:492-497 | if every field parses, the list is the parsed values in order |
| Validation.ValidateCashFlows | script.js:63-69 | definition; see CalculatesIff |
| Validation.AmountsValid | script.js:523-530 | definition of the first gate; see CalculatesIff and UnparsedRateRejected |
| Validation.CheckForm | script.js:523-548 | a calculation that runs is the one selected |
| Validation.CalculatesIff | script.js:523-548 | a calculation runs iff amount > 0, rate >= 0 and time > 0 (all numbers); the flows are non-empty for npv/irr/sensitivity; and sensitivity's range is two values with range[0] < range[1] |
| Validation.FlowsIgnoredElsewhere | script.js:534-538 | for simple, compound and amortization the cash-flow field cannot change the outcome |
| Validation.UnparsedRateRejected | script.js:523-531 | a rate field that is not a number gives the first error message, whatever the calculation |
| Tutorial.StepAfterPrev | script.js:429-432 | Prev moves one step back, and leaves the step unchanged exactly at the first step |
| Tutorial.StepAfterNext | script.js:436-439 | Next moves one step on, and leaves the step unchanged exactly at the last step |
| Tutorial.NavigationStaysInRange | script.js:428-440 | from any step, Prev and Next stay within 0..8 |
| Tutorial.NavigationInverse | script.js:428-440 | away from the ends, Next undoes Prev and Prev undoes Next |
| Tutorial.NextReachesLast | script.js:435-440 | enough presses of Next reach the last step and stay there |
| Tutorial.TutorialModal.Open | script.js:451-453 | first load shows step 0 with Prev disabled and Next enabled |
| Tutorial.TutorialModal.Show | script.js:296-297 | Prev is disabled iff the step is 0, and Next iff it is the last |
| Tutorial.TutorialModal.Prev | script.js:428-433 | moves as StepAfterPrev says, keeps the button invariant, and changes nothing at step 0 |
| Tutorial.TutorialModal.Next | script.js:435-440 | moves as StepAfterNext says, keeps the button invariant, and changes nothing at the last step |
| CsvExport.Escape | script.js:181 | escaping never shortens an item, and leaves an item without quotes unchanged |
| CsvExport.UnescapeEscape | script.js:181 | undoing the quote doubling gives back the original item |
| CsvExport.QuoteField | script.js:181 | definition; see QuoteFieldRoundTrip |
| CsvExport.QuoteFieldRoundTrip | script.js:181 | every item can be read back from its quoted field |
| CsvExport.Lines | script.js:180-181 | one field per history item, each reading back as that item |
| CsvExport.Join | script.js:181 | definition of `join("\n")`; see CsvContent |
| CsvExport.CsvContent | script.js:175-181 | there is no file exactly when the history is empty |

## Findings

| source | as written | input that shows it | evidently intended | confidence | as-written member | corrected member |
|---|---|---|---|---|---|---|
| script.js:96 | the width exit `break`s and the function returns `null`, so a root is found only if a midpoint has \|NPV\| < 0.0001 | flows [-1000, 1100]: exact rate 10%, but no midpoint comes within 3e-5 of 0.1, where \|NPV\| > 0.003, so the result is `null` | a bracket narrower than the precision is a stop with a result: return the last midpoint, giving 10 within 0.01 here | high in exact arithmetic; not executed | TenPercentExample.ExampleMissed | TenPercentExample.ExampleFixed |

## Left out

- DOM wiring, event listeners, the modal's highlighting and visibility, particles, sounds and Chart.js: UI effects with no logic to check.
- `fetchExchangeRates`, `convertToCurrency` and the exchange-rate table: network I/O and a table lookup applied after every computed value.
- `localStorage` for the history and the tutorial flag, and `updateHistoryList`: browser storage and rendering.
- `exportToPDF` and the download link of `downloadHistoryAsCSV`: foreign library calls and file downloads. Only the quoting is modelled, and the URI encoding is not.
- `toFixed(2)` and `formatCurrency`: decimal rounding of doubles for display. The model states the values before formatting.
- IEEE doubles: rounding, NaN and Infinity propagation. A division by zero is either excluded by a precondition or modelled as `None`.
- NetPresentValue.Npv: requires `1 + rate != 0`. At a rate of exactly -100% the source divides by zero. That gives plus or minus Infinity, or NaN for a zero flow, which the `isNaN` guard then drops.
- Sensitivity.PerformSensitivityAnalysis: requires that no sampled rate is exactly -100%, for the same reason.
- Interest.CompoundInterest: only a whole number of years. `Math.pow` with a fractional exponent has no exact counterpart here.
- Amortization.MonthlyPayment: takes the monthly rate `rate / 12` as given.
- Amortization.MonthsIn: models `Math.round` on the exact product `time * 12`, not on its rounded double.
- InternalRateOfReturn.CalculateIrr: does not claim that the result is near a true root, because the code does not guarantee one: after a sign change the width exit returns `null` whenever no visited midpoint has |NPV| < 0.0001, as for [-1000, 1100] (see "Findings"). For flows with a small NPV scale, such as [-1, 1.1], a midpoint can land within the tolerance; the model does not say for which flows. Flows whose NPV changes sign more than once are not characterised.
- CsvExport.CsvContent: does not model splitting the file back into lines. That needs history items without newlines, which the model does not track.
- Tutorial: the step texts and highlight selectors of `tutorialSteps` and the close button. Only the number of steps (9) matters to navigation.
