/**
 * The input gates of the calculator form: parsing the comma-separated number
 * lists (script.js:492-503), validateCashFlows (script.js:63-69) and the
 * three checks of the submit handler that decide whether a calculation
 * branch runs (script.js:523-548).
 *
 * A field's `parseFloat` result is an `Option<real>`: `None` stands for NaN,
 * the value parseFloat gives for text that does not start with a number.
 */
module Validation {
  import opened Wrappers

  /** The calculation picked in the form's select. */
  datatype CalcKind = Simple | Compound | Amortization | Npv | Irr | Sensitivity | Other

  /** Which message the handler shows, or that it goes on to a calculation. */
  datatype Outcome =
    | InvalidAmounts   // amount, rate or time missing or out of range
    | InvalidFlows     // no usable cash flow for a calculation that needs them
    | InvalidRange     // the sensitivity range is not two increasing rates
    | Calculate(kind: CalcKind)

  /** The calculations that read the cash-flow list. */
  predicate NeedsFlows(kind: CalcKind)
  {
    kind == Npv || kind == Irr || kind == Sensitivity
  }

  /**
   * The list fields: split at commas, `parseFloat` each entry, drop the NaNs.
   * An empty field gives the empty list either way.
   */
  function ParseNumbers(entries: seq<Option<real>>): (numbers: seq<real>)
    ensures |numbers| <= |entries|
    ensures forall x :: x in numbers <==> Some(x) in entries
  {
    if entries == [] then []
    else
      var rest := ParseNumbers(entries[1..]);
      match entries[0]
      case Some(x) => [x] + rest
      case None => rest
  }

  /** A single entry: a number is kept as a one-element list, NaN gives nothing. */
  lemma ParseNumbersOne(entry: Option<real>)
    ensures ParseNumbers([entry]) == if entry.Some? then [entry.value] else []
  {
    assert [entry][1..] == [];
  }

  /** Parsing works entry by entry: the lists of consecutive parts are joined in order. */
  lemma {:induction false} ParseNumbersAppend(a: seq<Option<real>>, b: seq<Option<real>>)
    ensures ParseNumbers(a + b) == ParseNumbers(a) + ParseNumbers(b)
  {
    if a != [] {
      ParseNumbersAppend(a[1..], b);
      assert (a + b)[0] == a[0];
      assert (a + b)[1..] == a[1..] + b;
    } else {
      assert a + b == b;
    }
  }

  /** The parsed list is empty exactly when no entry parses as a number. */
  lemma {:induction false} ParseNumbersEmptyIff(entries: seq<Option<real>>)
    ensures ParseNumbers(entries) == [] <==> forall i | 0 <= i < |entries| :: entries[i] == None
  {
    if entries != [] {
      ParseNumbersEmptyIff(entries[1..]);
      if entries[0] == None {
        forall i | 1 <= i < |entries|
          ensures entries[i] == entries[1..][i - 1]
        {
        }
      }
    }
  }

  /** Entries that all parse survive in order. */
  lemma {:induction false} ParseNumbersKeepsNumbers(entries: seq<Option<real>>, values: seq<real>)
    requires |entries| == |values|
    requires forall i | 0 <= i < |entries| :: entries[i] == Some(values[i])
    ensures ParseNumbers(entries) == values
  {
    if entries != [] {
      ParseNumbersKeepsNumbers(entries[1..], values[1..]);
    }
  }

  /**
   * validateCashFlows on the already parsed list: it is non-empty and every
   * entry is a number, which every entry of a parsed list is.
   */
  predicate ValidateCashFlows(flows: seq<real>)
  {
    |flows| > 0
  }

  /** The first gate: all three fields are numbers, the amount and time positive and the rate not negative. */
  predicate AmountsValid(amount: Option<real>, ratePercent: Option<real>, time: Option<real>)
  {
    && amount.Some? && ratePercent.Some? && time.Some?
    && amount.value > 0.0 && ratePercent.value / 100.0 >= 0.0 && time.value > 0.0
  }

  /** The submit handler's chain of checks, in the order it makes them. */
  function CheckForm(amount: Option<real>, ratePercent: Option<real>, time: Option<real>,
                     flows: seq<real>, rateRange: seq<real>, kind: CalcKind): (outcome: Outcome)
    ensures outcome.Calculate? ==> outcome.kind == kind
  {
    if !AmountsValid(amount, ratePercent, time) then InvalidAmounts
    else if NeedsFlows(kind) && !ValidateCashFlows(flows) then InvalidFlows
    else if kind == Sensitivity && (|rateRange| != 2 || rateRange[0] >= rateRange[1]) then InvalidRange
    else Calculate(kind)
  }

  /**
   * A calculation runs exactly when the amount is positive, the rate not
   * negative and the time positive, when the cash flows are non-empty for NPV,
   * IRR and sensitivity, and when sensitivity has a range of two increasing rates.
   */
  lemma CalculatesIff(amount: Option<real>, ratePercent: Option<real>, time: Option<real>,
                      flows: seq<real>, rateRange: seq<real>, kind: CalcKind)
    ensures CheckForm(amount, ratePercent, time, flows, rateRange, kind).Calculate?
            <==> && amount.Some? && ratePercent.Some? && time.Some?
                 && amount.value > 0.0 && ratePercent.value >= 0.0 && time.value > 0.0
                 && (kind in {Npv, Irr, Sensitivity} ==> |flows| > 0)
                 && (kind == Sensitivity ==> |rateRange| == 2 && rateRange[0] < rateRange[1])
  {
  }

  /** The cash-flow field only matters to the calculations that read it. */
  lemma FlowsIgnoredElsewhere(amount: Option<real>, ratePercent: Option<real>, time: Option<real>,
                              flows: seq<real>, flows': seq<real>, rateRange: seq<real>, kind: CalcKind)
    requires !NeedsFlows(kind)
    ensures CheckForm(amount, ratePercent, time, flows, rateRange, kind)
            == CheckForm(amount, ratePercent, time, flows', rateRange, kind)
  {
  }

  /** A rate field that does not parse is rejected before anything else, whatever the calculation. */
  lemma UnparsedRateRejected(amount: Option<real>, time: Option<real>,
                             flows: seq<real>, rateRange: seq<real>, kind: CalcKind)
    ensures CheckForm(amount, None, time, flows, rateRange, kind) == InvalidAmounts
  {
  }
}
