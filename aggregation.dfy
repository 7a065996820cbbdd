/**
 * The derived numbers the views show: the daily progress percentage and
 * a habit's completion percentage for a month. Percentages are exact
 * reals; the display rounding is not modelled.
 */
module Aggregation {
  import opened Dates
  import opened Habits

  /** `habits.filter(h => h.completed).length`. */
  function CountCompleted(habits: seq<Habit>): (n: nat)
    ensures n <= |habits|
    ensures n == 0 <==> forall i :: 0 <= i < |habits| ==> !habits[i].completed
    ensures n == |habits| <==> forall i :: 0 <= i < |habits| ==> habits[i].completed
  {
    if habits == [] then 0
    else (if habits[0].completed then 1 else 0) + CountCompleted(habits[1..])
  }

  lemma {:induction false} CountConcat(a: seq<Habit>, b: seq<Habit>)
    ensures CountCompleted(a + b) == CountCompleted(a) + CountCompleted(b)
  {
    if a == [] {
      assert a + b == b;
    } else {
      assert (a + b)[1..] == a[1..] + b;
      CountConcat(a[1..], b);
    }
  }

  /** Replacing one habit changes the count by the difference of the two flags. */
  lemma CountReplace(habits: seq<Habit>, k: nat, h: Habit)
    requires k < |habits|
    ensures CountCompleted(habits[k := h]) ==
              CountCompleted(habits) - (if habits[k].completed then 1 else 0) + (if h.completed then 1 else 0)
  {
    var pre, post := habits[..k], habits[k + 1..];
    assert habits == pre + ([habits[k]] + post);
    assert habits[k := h] == pre + ([h] + post);
    CountConcat(pre, [habits[k]] + post);
    CountConcat([habits[k]], post);
    CountConcat(pre, [h] + post);
    CountConcat([h], post);
    assert [habits[k]][1..] == [] && [h][1..] == [];
  }

  /** A share of a positive whole lies in [0, 1], and is 0 or 1 only at the ends. */
  lemma Ratio(c: real, n: real)
    requires 0.0 <= c <= n && n > 0.0
    ensures 0.0 <= c / n <= 1.0
    ensures c / n == 0.0 <==> c == 0.0
    ensures c / n == 1.0 <==> c == n
  {
    assert (c / n) * n == c;
  }

  /**
   * `part / whole * 100`, or 0 for an empty whole (both call sites
   * return 0 before dividing by zero); in [0, 100], 0 exactly when nothing
   * counts and 100 exactly when everything does.
   */
  function Percent(part: nat, whole: nat): (p: real)
    requires part <= whole
    ensures 0.0 <= p <= 100.0
    ensures whole == 0 ==> p == 0.0
    ensures whole > 0 ==> p == part as real / whole as real * 100.0
    ensures p == 0.0 <==> part == 0
    ensures p == 100.0 <==> whole > 0 && part == whole
  {
    if whole == 0 then 0.0
    else
      var c, n := part as real, whole as real;
      Ratio(c, n);
      (c / n) * 100.0
  }

  /**
   * The progress effect: 0 for an empty list, otherwise
   * `completedCount / habits.length * 100`; it lies in [0, 100], is 0
   * exactly when no habit is done and 100 exactly when all are.
   */
  function DailyProgress(habits: seq<Habit>): (p: real)
    ensures 0.0 <= p <= 100.0
    ensures habits == [] ==> p == 0.0
    ensures habits != [] ==> p == CountCompleted(habits) as real / |habits| as real * 100.0
    ensures p == 0.0 <==> forall i :: 0 <= i < |habits| ==> !habits[i].completed
    ensures p == 100.0 <==> habits != [] && forall i :: 0 <= i < |habits| ==> habits[i].completed
  {
    if |habits| == 0 then 0.0 else Percent(CountCompleted(habits), |habits|)
  }

  /** One of three habits done gives 33.3...%. */
  lemma OneOfThree(a: Habit, b: Habit, c: Habit)
    requires a.completed && !b.completed && !c.completed
    ensures DailyProgress([a, b, c]) == 100.0 / 3.0
  {
    assert CountCompleted([a, b, c]) == 1 by {
      assert [a, b, c][1..] == [b, c];
      assert [b, c][1..] == [c];
    }
  }

  /**
   * Toggling a habit whose id is unique moves the completed count by
   * exactly one, up or down with its new flag.
   */
  lemma ToggleMovesCountByOne(habits: seq<Habit>, id: int, today: DateKey, k: nat)
    requires UniqueIds(habits) && k < |habits| && habits[k].id == id
    ensures CountCompleted(ToggleHabit(habits, id, today)) ==
              CountCompleted(habits) + (if habits[k].completed then -1 else 1)
  {
    assert ToggleHabit(habits, id, today) == habits[k := Toggled(habits[k], today)];
    CountReplace(habits, k, Toggled(habits[k], today));
  }

  /** After the rollover no habit is done, so the progress is 0. */
  lemma ResetZeroesProgress(habits: seq<Habit>)
    ensures DailyProgress(ResetCompleted(habits)) == 0.0
  {
  }

  // ----- getMonthlyCompletionPercentage -----

  /** `dates.filter(date => !isFutureDate(date))`. */
  function PastDates(dates: seq<DateKey>, today: DateKey): (r: seq<DateKey>)
    ensures |r| <= |dates|
    ensures forall d :: d in r <==> d in dates && !IsFutureDate(d, today)
  {
    if dates == [] then []
    else (if !IsFutureDate(dates[0], today) then [dates[0]] else []) + PastDates(dates[1..], today)
  }

  /** `dates.filter(date => wasHabitCompletedOnDate(habit, date))`. */
  function CompletedDates(habit: Habit, dates: seq<DateKey>): (r: seq<DateKey>)
    ensures |r| <= |dates|
    ensures |r| == |dates| <==> forall i :: 0 <= i < |dates| ==> WasCompletedOnDate(habit, dates[i])
    ensures |r| == 0 <==> forall i :: 0 <= i < |dates| ==> !WasCompletedOnDate(habit, dates[i])
    ensures forall d :: d in r <==> d in dates && WasCompletedOnDate(habit, d)
  {
    if dates == [] then []
    else
      var rest := CompletedDates(habit, dates[1..]);
      assert forall i :: 1 <= i < |dates| ==> dates[i] == dates[1..][i - 1];
      (if WasCompletedOnDate(habit, dates[0]) then [dates[0]] else []) + rest
  }

  /**
   * The share, in percent, of the days of `dates` that are not after
   * today on which the habit was done; 0 when no day is.
   */
  function CompletionShare(habit: Habit, dates: seq<DateKey>, today: DateKey): (p: real)
    ensures 0.0 <= p <= 100.0
    ensures PastDates(dates, today) == [] ==> p == 0.0
    ensures var past := PastDates(dates, today);
            past != [] ==> p == |CompletedDates(habit, past)| as real / |past| as real * 100.0
    ensures var past := PastDates(dates, today);
            p == 100.0 <==> past != [] && forall i :: 0 <= i < |past| ==> WasCompletedOnDate(habit, past[i])
  {
    var past := PastDates(dates, today);
    if |past| == 0 then 0.0 else Percent(|CompletedDates(habit, past)|, |past|)
  }

  /**
   * `getMonthlyCompletionPercentage(habit, year, month)`: the share over
   * the days of that month; in [0, 100].
   */
  function MonthlyCompletionPercentage(habit: Habit, year: int, month: int, today: DateKey): (p: real)
    ensures 0.0 <= p <= 100.0
  {
    CompletionShare(habit, GetDatesForMonth(year, month), today)
  }

  /** When the non-future days are exactly a prefix of the list, the filter keeps that prefix. */
  lemma {:induction false} PastDatesPrefix(dates: seq<DateKey>, today: DateKey, k: nat)
    requires k <= |dates|
    requires forall i :: 0 <= i < |dates| ==> (!IsFutureDate(dates[i], today) <==> i < k)
    ensures PastDates(dates, today) == dates[..k]
  {
    if dates != [] {
      var rest := dates[1..];
      if k == 0 {
        PastDatesPrefix(rest, today, 0);
      } else {
        PastDatesPrefix(rest, today, k - 1);
        assert dates[..k] == [dates[0]] + rest[..k - 1];
      }
    }
  }

  /**
   * How many days of a month count: all of them for a month before the
   * current one, the days up to and including today in the current month,
   * none for a later month.
   */
  lemma PastDaysOfMonth(year: int, month: int, today: DateKey)
    requires IsValid(today)
    ensures var y, m := year + month / 12, month % 12 + 1;
            |PastDates(GetDatesForMonth(year, month), today)| ==
              if y < today.year || (y == today.year && m < today.month) then GetDaysInMonth(year, month)
              else if y == today.year && m == today.month then today.day
              else 0
  {
    var y, m := year + month / 12, month % 12 + 1;
    var dates := GetDatesForMonth(year, month);
    var n := |dates|;
    if y < today.year || (y == today.year && m < today.month) {
      PastDatesPrefix(dates, today, n);
      assert dates[..n] == dates;
    } else if y == today.year && m == today.month {
      assert today.day <= n;
      PastDatesPrefix(dates, today, today.day);
    } else {
      PastDatesPrefix(dates, today, 0);
    }
  }

  /** A habit with no history scores 0 for every month. */
  lemma NoHistoryScoresZero(habit: Habit, year: int, month: int, today: DateKey)
    requires habit.history == []
    ensures MonthlyCompletionPercentage(habit, year, month, today) == 0.0
  {
  }

  /**
   * A habit is never penalised for days to come: a month after the current
   * one scores 0, and in the current month only the days up to today count.
   */
  lemma MonthlyCountsDaysUpToToday(habit: Habit, year: int, month: int, today: DateKey)
    requires IsValid(today)
    ensures var y, m := year + month / 12, month % 12 + 1;
            (y > today.year || (y == today.year && m > today.month))
              ==> MonthlyCompletionPercentage(habit, year, month, today) == 0.0
    ensures var y, m := year + month / 12, month % 12 + 1;
            var past := PastDates(GetDatesForMonth(year, month), today);
            (y == today.year && m == today.month)
              ==> MonthlyCompletionPercentage(habit, year, month, today)
                  == |CompletedDates(habit, past)| as real / today.day as real * 100.0
  {
    PastDaysOfMonth(year, month, today);
  }
}
