/**
 * The view state's pure steps: moving the displayed month and year, and
 * the swipe gesture's step between the daily, monthly and yearly pages.
 */
module Navigation {
  import opened Wrappers

  /** `ViewMode`: the three pages, left to right. */
  datatype ViewMode = Daily | Monthly | Yearly

  /** A displayed month: `month` is 0-based (0..11), as `getMonth()` gives it. */
  datatype MonthView = MonthView(year: int, month: int)

  /** The months counted from year 0, month 0: `12 * year + month`. */
  function MonthNumber(v: MonthView): int {
    12 * v.year + v.month
  }

  predicate InRange(v: MonthView) {
    0 <= v.month < 12
  }

  /** `goToPreviousMonth`: December of the previous year after January, else one month back. */
  function PreviousMonth(v: MonthView): (r: MonthView)
    ensures MonthNumber(r) == MonthNumber(v) - 1
    ensures InRange(v) ==> InRange(r)
  {
    if v.month == 0 then MonthView(v.year - 1, 11) else MonthView(v.year, v.month - 1)
  }

  /** `goToNextMonth`: January of the next year after December, else one month on. */
  function NextMonth(v: MonthView): (r: MonthView)
    ensures MonthNumber(r) == MonthNumber(v) + 1
    ensures InRange(v) ==> InRange(r)
  {
    if v.month == 11 then MonthView(v.year + 1, 0) else MonthView(v.year, v.month + 1)
  }

  /** The in-range view with a given month number. */
  function FromMonthNumber(n: int): (v: MonthView)
    ensures InRange(v) && MonthNumber(v) == n
  {
    MonthView(n / 12, n % 12)
  }

  /** A month number names one in-range view. */
  lemma MonthNumberInjective(a: MonthView, b: MonthView)
    requires InRange(a) && InRange(b) && MonthNumber(a) == MonthNumber(b)
    ensures a == b
  {
  }

  /**
   * The month steps are moves by one along the month numbers: each is the
   * in-range view one month before or after, so they undo each other.
   */
  lemma MonthStepsAreInverse(v: MonthView)
    requires InRange(v)
    ensures PreviousMonth(v) == FromMonthNumber(MonthNumber(v) - 1)
    ensures NextMonth(v) == FromMonthNumber(MonthNumber(v) + 1)
    ensures NextMonth(PreviousMonth(v)) == v && PreviousMonth(NextMonth(v)) == v
  {
    MonthNumberInjective(PreviousMonth(v), FromMonthNumber(MonthNumber(v) - 1));
    MonthNumberInjective(NextMonth(v), FromMonthNumber(MonthNumber(v) + 1));
    MonthNumberInjective(NextMonth(PreviousMonth(v)), v);
    MonthNumberInjective(PreviousMonth(NextMonth(v)), v);
  }

  /** `goToPreviousYear`: the year goes back by one, the month stays. */
  function PreviousYear(v: MonthView): (r: MonthView)
    ensures r.month == v.month && r.year == v.year - 1
    ensures MonthNumber(r) == MonthNumber(v) - 12
  {
    v.(year := v.year - 1)
  }

  /** `goToNextYear`: the year goes on by one, the month stays. */
  function NextYear(v: MonthView): (r: MonthView)
    ensures r.month == v.month && r.year == v.year + 1
    ensures MonthNumber(r) == MonthNumber(v) + 12
  {
    v.(year := v.year + 1)
  }

  /** Twelve month steps forward make one year step. */
  lemma TwelveMonthsAreAYear(v: MonthView)
    requires InRange(v)
    ensures NextMonth(NextMonth(NextMonth(NextMonth(NextMonth(NextMonth(
              NextMonth(NextMonth(NextMonth(NextMonth(NextMonth(NextMonth(v))))))))))))
            == NextYear(v)
  {
    var w := NextMonth(NextMonth(NextMonth(NextMonth(NextMonth(NextMonth(
               NextMonth(NextMonth(NextMonth(NextMonth(NextMonth(NextMonth(v))))))))))));
    MonthNumberInjective(w, NextYear(v));
  }

  // ----- The swipe gesture -----

  /** The distance, in pixels, a swipe must exceed to change the page. */
  const SwipeThreshold: int := 50

  /** The position of a page, left to right. */
  function PageIndex(p: ViewMode): nat {
    match p
    case Daily => 0
    case Monthly => 1
    case Yearly => 2
  }

  /**
   * The page a move of `handleTouchMove` goes to, with `diffX = startX -
   * currentX`: `handleTouchMove`'s four cases, in order, or None when none
   * applies. A target is always another page, and past the threshold.
   */
  function SwipeTarget(page: ViewMode, diffX: int): (r: Option<ViewMode>)
    ensures r.Some? ==> r.value != page
    ensures r.Some? ==> diffX > SwipeThreshold || diffX < -SwipeThreshold
  {
    if diffX > SwipeThreshold && page == Daily then Some(Monthly)
    else if diffX < -SwipeThreshold && page == Monthly then Some(Daily)
    else if diffX > SwipeThreshold && page == Monthly then Some(Yearly)
    else if diffX < -SwipeThreshold && page == Yearly then Some(Monthly)
    else None
  }

  /**
   * A swipe changes the page exactly when it goes past the threshold and
   * there is a page on that side: past +50 it moves one page right, past
   * -50 one page left, and the page always changes.
   */
  lemma SwipeStepsToNeighbour(page: ViewMode, diffX: int)
    ensures SwipeTarget(page, diffX).Some? <==>
              (diffX > SwipeThreshold && page != Yearly) || (diffX < -SwipeThreshold && page != Daily)
    ensures SwipeTarget(page, diffX).Some? ==>
              PageIndex(SwipeTarget(page, diffX).value) ==
                PageIndex(page) + (if diffX > SwipeThreshold then 1 else -1)
    ensures SwipeTarget(page, diffX).Some? ==> SwipeTarget(page, diffX).value != page
  {
  }

  /** A swipe the other way, as far, undoes a step. */
  lemma SwipeBack(page: ViewMode, diffX: int)
    requires SwipeTarget(page, diffX).Some?
    ensures SwipeTarget(SwipeTarget(page, diffX).value, -diffX) == Some(page)
  {
  }
}
