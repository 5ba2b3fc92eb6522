/** Indian financial-year quarters. The financial year runs from April to
    March and is named after the calendar year in which it starts, so
    January to March belong to the fourth quarter of the previous year's
    financial year.

    The program reads the month and year from the system clock; here they
    are parameters. */
module FinancialPeriod {
  import opened JsPrim

  /** A calendar month as the clock reports it: 0 is January, 11 December. */
  type Month = m: int | 0 <= m < 12

  datatype Label = Q1 | Q2 | Q3 | Q4

  /** A financial quarter: its label and the financial year it belongs to. */
  datatype Quarter = Quarter(quarter: Label, financialYear: int)

  /** The lookup from label to index, Q1 = 0 through Q4 = 3. */
  function LabelIndex(l: Label): (i: int)
    ensures 0 <= i < 4
    ensures IdxToQuarter[i] == l
  {
    match l
    case Q1 => 0
    case Q2 => 1
    case Q3 => 2
    case Q4 => 3
  }

  /** The lookup from index back to label. */
  const IdxToQuarter: seq<Label> := [Q1, Q2, Q3, Q4]

  /** Every index in range names a label whose index it is: the two lookups
      are inverse bijections between `0 .. 3` and the labels. */
  lemma IndexRoundTrip(i: int)
    requires 0 <= i < 4
    ensures LabelIndex(IdxToQuarter[i]) == i
  {
  }

  /** The position of a quarter on a single time line: four per financial
      year, so consecutive quarters have consecutive ordinals. */
  function Ordinal(q: Quarter): int
  {
    4 * q.financialYear + LabelIndex(q.quarter)
  }

  /** Lexicographic order on (financial year, quarter index). */
  predicate Before(a: Quarter, b: Quarter)
  {
    a.financialYear < b.financialYear
    || (a.financialYear == b.financialYear && LabelIndex(a.quarter) < LabelIndex(b.quarter))
  }

  /** The lexicographic order is the order of ordinals, and a quarter is
      determined by its ordinal. */
  lemma OrdinalOrder(a: Quarter, b: Quarter)
    ensures Before(a, b) <==> Ordinal(a) < Ordinal(b)
    ensures a == b <==> Ordinal(a) == Ordinal(b)
  {
  }

  // ---------------------------------------------------------------------
  // The current quarter

  /** The month-to-label table of the current-quarter computation. */
  const CurrentQuarterMap: seq<Label> :=
    [Q4, Q4, Q4, Q1, Q1, Q1, Q2, Q2, Q2, Q3, Q3, Q3]

  /** The quarter the given month of the given calendar year falls in.
      Counting months from January of year 0, quarter `Qk` of financial
      year `f` covers the three months starting at April of `f` plus
      `3 * (k - 1)`; the result is the one quarter whose three months
      contain the given one. */
  function CurrentIndianQuarter(month: Month, year: int): (q: Quarter)
    ensures month <= 2 ==> q.quarter == Q4
    ensures 3 <= month <= 5 ==> q.quarter == Q1
    ensures 6 <= month <= 8 ==> q.quarter == Q2
    ensures 9 <= month ==> q.quarter == Q3
    ensures q.financialYear == year - 1 <==> month < 3
    ensures q.financialYear == year <==> month >= 3
    ensures var start := 12 * q.financialYear + 3 + 3 * LabelIndex(q.quarter);
      start <= 12 * year + month < start + 3
  {
    var quarter := CurrentQuarterMap[month];
    var financialYear := if month < 3 then year - 1 else year;
    Quarter(quarter, financialYear)
  }

  // ---------------------------------------------------------------------
  // Quarters before the current one

  /** One entry of the second month table: the label and the offset from
      the calendar year to the financial year. */
  datatype MonthEntry = MonthEntry(quarter: Label, offset: int)

  const MonthToQuarter: seq<MonthEntry> := [
    MonthEntry(Q4, -1), MonthEntry(Q4, -1), MonthEntry(Q4, -1),
    MonthEntry(Q1, 0), MonthEntry(Q1, 0), MonthEntry(Q1, 0),
    MonthEntry(Q2, 0), MonthEntry(Q2, 0), MonthEntry(Q2, 0),
    MonthEntry(Q3, 0), MonthEntry(Q3, 0), MonthEntry(Q3, 0)
  ]

  /** The quarter `steps` quarters before the one the month falls in, as
      the program computes it: a truncating remainder fixed up by adding 4
      when negative, and the financial year lowered by the ceiling of the
      overshoot below index 0 over 4. Both agree with floored division of
      `currentIdx - steps` by 4, which is what keeps the label lookup in
      range for every `steps`. */
  function PreviousIndianQuarter(steps: nat, month: Month, year: int): (q: Quarter)
    ensures var entry := MonthToQuarter[month];
      && LabelIndex(q.quarter) == (LabelIndex(entry.quarter) - steps) % 4
      && q.financialYear == year + entry.offset + (LabelIndex(entry.quarter) - steps) / 4
  {
    var entry := MonthToQuarter[month];
    var currentQuarterIdx := LabelIndex(entry.quarter);
    var currentFY := year + entry.offset;
    var raw := currentQuarterIdx - steps;
    var rem := JsRem4(raw);
    var prevQuarterIdx := if rem < 0 then rem + 4 else rem;
    var prevFY := if raw < 0 then currentFY - JsCeilDiv4(Abs(raw)) else currentFY;
    Quarter(IdxToQuarter[prevQuarterIdx], prevFY)
  }

  /** Going back zero quarters gives the current quarter: the two month
      tables agree on every month of every year. */
  lemma PreviousZeroIsCurrent(month: Month, year: int)
    ensures PreviousIndianQuarter(0, month, year) == CurrentIndianQuarter(month, year)
  {
  }

  /** Going back `steps` quarters moves exactly `steps` places down the
      time line of ordinals, however many financial years that crosses. */
  lemma OrdinalLaw(steps: nat, month: Month, year: int)
    ensures Ordinal(PreviousIndianQuarter(steps, month, year))
         == Ordinal(CurrentIndianQuarter(month, year)) - steps
  {
    PreviousZeroIsCurrent(month, year);
  }

  /** The financial year moves only when the step count overshoots the
      current quarter index, and then it drops by the least number of whole
      years that covers the overshoot. */
  lemma YearRollover(steps: nat, month: Month, year: int)
    ensures var cur := CurrentIndianQuarter(month, year);
      var prev := PreviousIndianQuarter(steps, month, year);
      var overshoot := steps - LabelIndex(cur.quarter);
      var drop := cur.financialYear - prev.financialYear;
      && (overshoot <= 0 ==> drop == 0)
      && (overshoot > 0 ==> drop > 0 && 4 * drop - 4 < overshoot <= 4 * drop)
  {
    OrdinalLaw(steps, month, year);
  }

  /** Going back a whole number of years keeps the label and lowers the
      financial year by that number. */
  lemma WholeYearsBack(years: nat, month: Month, year: int)
    ensures var cur := CurrentIndianQuarter(month, year);
      PreviousIndianQuarter(4 * years, month, year) == Quarter(cur.quarter, cur.financialYear - years)
  {
    OrdinalLaw(4 * years, month, year);
    var cur := CurrentIndianQuarter(month, year);
    OrdinalOrder(PreviousIndianQuarter(4 * years, month, year), Quarter(cur.quarter, cur.financialYear - years));
  }

  /** Going further back always gives a strictly earlier quarter, so the
      quarters for any increasing run of step counts are pairwise distinct
      and strictly decreasing. */
  lemma StrictlyEarlier(s: nat, t: nat, month: Month, year: int)
    requires s < t
    ensures Before(PreviousIndianQuarter(t, month, year), PreviousIndianQuarter(s, month, year))
    ensures PreviousIndianQuarter(t, month, year) != PreviousIndianQuarter(s, month, year)
  {
    OrdinalLaw(s, month, year);
    OrdinalLaw(t, month, year);
    OrdinalOrder(PreviousIndianQuarter(t, month, year), PreviousIndianQuarter(s, month, year));
  }

  /** The worked example of a current quarter Q2 of financial year 2025. */
  lemma ExampleFromSecondQuarter()
    ensures CurrentIndianQuarter(7, 2025) == Quarter(Q2, 2025)
    ensures PreviousIndianQuarter(1, 7, 2025) == Quarter(Q1, 2025)
    ensures PreviousIndianQuarter(2, 7, 2025) == Quarter(Q4, 2024)
    ensures PreviousIndianQuarter(6, 7, 2025) == Quarter(Q4, 2023)
  {
  }
}
