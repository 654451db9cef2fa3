/** Stepping the displayed month backwards and forwards. A displayed month is
    a (year, month) pair; it is also numbered by a single month index, which
    the two steps move by exactly one. */
module Navigation {

  datatype YearMonth = YearMonth(year: int, month: int)

  predicate ValidMonth(v: YearMonth) {
    1 <= v.month <= 12
  }

  /** Months counted from January of year 0. */
  function MonthIndex(v: YearMonth): int {
    v.year * 12 + (v.month - 1)
  }

  /** The month with a given index: the reference definition the steps are checked against. */
  function FromMonthIndex(k: int): (v: YearMonth)
    ensures ValidMonth(v) && MonthIndex(v) == k
  {
    YearMonth(k / 12, k % 12 + 1)
  }

  /** Within valid months, the index determines the month. */
  lemma MonthIndexInjective(a: YearMonth, b: YearMonth)
    requires ValidMonth(a) && ValidMonth(b)
    ensures MonthIndex(a) == MonthIndex(b) <==> a == b
  {
  }

  lemma FromMonthIndexOfIndex(v: YearMonth)
    requires ValidMonth(v)
    ensures FromMonthIndex(MonthIndex(v)) == v
  {
  }

  /** The `<` button: one month back, wrapping from January to December of the previous year. */
  function PrevOf(v: YearMonth): (r: YearMonth)
    requires ValidMonth(v)
    ensures ValidMonth(r)
    ensures MonthIndex(r) == MonthIndex(v) - 1
    ensures r.year != v.year <==> v.month == 1
    ensures r.year == v.year || r.year == v.year - 1
  {
    var m := v.month - 1;
    if m < 1 then YearMonth(v.year - 1, 12) else YearMonth(v.year, m)
  }

  /** The `>` button: one month forward, wrapping from December to January of the next year. */
  function NextOf(v: YearMonth): (r: YearMonth)
    requires ValidMonth(v)
    ensures ValidMonth(r)
    ensures MonthIndex(r) == MonthIndex(v) + 1
    ensures r.year != v.year <==> v.month == 12
    ensures r.year == v.year || r.year == v.year + 1
  {
    var m := v.month + 1;
    if m > 12 then YearMonth(v.year + 1, 1) else YearMonth(v.year, m)
  }

  /** Both steps agree with the reference definition by index. */
  lemma StepsFollowMonthIndex(v: YearMonth)
    requires ValidMonth(v)
    ensures PrevOf(v) == FromMonthIndex(MonthIndex(v) - 1)
    ensures NextOf(v) == FromMonthIndex(MonthIndex(v) + 1)
  {
  }

  /** Going back then forward, or forward then back, returns to the same month. */
  lemma PrevNextInverse(v: YearMonth)
    requires ValidMonth(v)
    ensures NextOf(PrevOf(v)) == v
    ensures PrevOf(NextOf(v)) == v
  {
  }

  /** `n` presses of `>` starting from `v`. */
  function Forward(v: YearMonth, n: nat): (r: YearMonth)
    requires ValidMonth(v)
    ensures ValidMonth(r)
  {
    if n == 0 then v else NextOf(Forward(v, n - 1))
  }

  /** `n` presses of `<` starting from `v`. */
  function Backward(v: YearMonth, n: nat): (r: YearMonth)
    requires ValidMonth(v)
    ensures ValidMonth(r)
  {
    if n == 0 then v else PrevOf(Backward(v, n - 1))
  }

  /** Repeated presses move the index by the number of presses, so twelve
      presses of `>` show the same month of the next year. */
  lemma {:induction false} RepeatedSteps(v: YearMonth, n: nat)
    requires ValidMonth(v)
    ensures MonthIndex(Forward(v, n)) == MonthIndex(v) + n
    ensures MonthIndex(Backward(v, n)) == MonthIndex(v) - n
  {
    if n > 0 {
      RepeatedSteps(v, n - 1);
    }
  }

  lemma TwelveStepsChangeYear(v: YearMonth)
    requires ValidMonth(v)
    ensures Forward(v, 12) == YearMonth(v.year + 1, v.month)
    ensures Backward(v, 12) == YearMonth(v.year - 1, v.month)
  {
    RepeatedSteps(v, 12);
    MonthIndexInjective(Forward(v, 12), YearMonth(v.year + 1, v.month));
    MonthIndexInjective(Backward(v, 12), YearMonth(v.year - 1, v.month));
  }
}
