/**
 * The `HabitTracker` component's state and commands. Each piece of React
 * state the core uses is a field; each command is a method that updates
 * the fields it names and no others, keeping the store's invariants.
 */
module Tracker {
  import opened Wrappers
  import opened Dates
  import opened Habits
  import opened Aggregation
  import opened Navigation

  class HabitTracker {
    /** `habits`: the habits, in display order. */
    var habits: seq<Habit>
    /** `today`: the key of the current day (`formatDate(currentDate)`). */
    var today: DateKey
    /** `currentMonth` (0..11) and `currentYear`: the month the views display. */
    var currentMonth: int
    var currentYear: int
    /** `currentPage`: the page shown. */
    var page: ViewMode
    /** `startXRef.current`: where the current swipe started, if one is under way. */
    var startX: Option<int>

    /**
     * The invariant every command keeps: the displayed month is in range,
     * ids are unique, names trimmed and non-blank, one history entry per day.
     */
    predicate Valid()
      reads this
    {
      0 <= currentMonth < 12 && WellFormed(habits)
    }

    /**
     * Every `completed` flag is what the history records for today, and no
     * entry is dated after today. The habit commands keep it; a rollover
     * keeps it unless the clock went back.
     */
    predicate InStep()
      reads this
    {
      Synced(habits, today)
    }

    /** The displayed month as a value. */
    function Displayed(): MonthView
      reads this
    {
      MonthView(currentYear, currentMonth)
    }

    /**
     * The initial state: no habits, the daily page, no swipe; `now` is the
     * current day's key and `month`, `year` the current local month.
     */
    constructor (now: DateKey, month: int, year: int)
      requires 0 <= month < 12
      ensures Valid() && InStep()
      ensures habits == [] && today == now && currentMonth == month && currentYear == year
      ensures page == Daily && startX == None
    {
      habits := [];
      today := now;
      currentMonth := month;
      currentYear := year;
      page := Daily;
      startX := None;
    }

    // ----- Habit commands -----

    /** `addHabit` with the typed name. */
    method AddHabit(name: string)
      requires Valid()
      modifies this`habits
      ensures Valid()
      ensures old(InStep()) ==> InStep()
      ensures habits == Habits.AddHabit(old(habits), name)
    {
      AddHabitPreserves(habits, name, today);
      habits := Habits.AddHabit(habits, name);
    }

    /** `updateHabit(id, newName)`. */
    method UpdateHabit(id: int, newName: string)
      requires Valid()
      modifies this`habits
      ensures Valid()
      ensures old(InStep()) ==> InStep()
      ensures habits == Habits.UpdateHabit(old(habits), id, newName)
    {
      UpdateHabitPreserves(habits, id, newName, today);
      habits := Habits.UpdateHabit(habits, id, newName);
    }

    /** `deleteHabit(id)`. */
    method DeleteHabit(id: int)
      requires Valid()
      modifies this`habits
      ensures Valid()
      ensures old(InStep()) ==> InStep()
      ensures habits == Habits.DeleteHabit(old(habits), id)
    {
      DeleteHabitPreserves(habits, id, today);
      habits := Habits.DeleteHabit(habits, id);
    }

    /**
     * `toggleHabit(id)`; afterwards each toggled habit's entry for today
     * records its new flag, whatever state the histories were in.
     */
    method ToggleHabit(id: int)
      requires Valid()
      modifies this`habits
      ensures Valid()
      ensures old(InStep()) ==> InStep()
      ensures habits == Habits.ToggleHabit(old(habits), id, today)
      ensures forall i :: 0 <= i < |habits| && habits[i].id == id ==>
                WasCompletedOnDate(habits[i], today) == habits[i].completed
    {
      ToggleHabitPreserves(habits, id, today);
      habits := Habits.ToggleHabit(habits, id, today);
      forall i | 0 <= i < |habits| && habits[i].id == id
        ensures WasCompletedOnDate(habits[i], today) == habits[i].completed
      {
        ToggledRecordsToday(old(habits)[i], today);
      }
    }

    /**
     * One tick of `checkForNewDay` with the current day's key `now`: on a
     * new key the day moves and every flag is cleared; histories are kept.
     * Being in step survives any move that does not go back in time; a
     * clock set back can break it (see `ResetForEarlierDayBreaksSync`).
     */
    method CheckForNewDay(now: DateKey)
      requires Valid()
      modifies this`habits, this`today
      ensures Valid()
      ensures now == old(today) ==> habits == old(habits) && today == old(today)
      ensures now != old(today) ==> today == now && habits == ResetCompleted(old(habits))
      ensures old(InStep()) && !Before(now, old(today)) ==> InStep()
    {
      BeforeIsStrictTotalOrder(today, now, today);
      if now != today {
        if Before(today, now) && InStep() {
          ResetForLaterDay(habits, today, now);
        }
        today := now;
        habits := ResetCompleted(habits);
      }
    }

    // ----- Queries -----

    /** The `progress` state, as the effect recomputes it whenever `habits` changes. */
    function Progress(): (p: real)
      reads this
      ensures 0.0 <= p <= 100.0
      ensures habits == [] ==> p == 0.0
    {
      DailyProgress(habits)
    }

    /** A habit's completion bar in the yearly grid: its percentage for a month of the displayed year. */
    function MonthBar(habit: Habit, month: int): (p: real)
      reads this
      ensures 0.0 <= p <= 100.0
    {
      MonthlyCompletionPercentage(habit, currentYear, month, today)
    }

    // ----- Calendar navigation -----

    /** `goToPreviousMonth`. */
    method GoToPreviousMonth()
      requires 0 <= currentMonth < 12
      modifies this`currentMonth, this`currentYear
      ensures 0 <= currentMonth < 12
      ensures Displayed() == PreviousMonth(old(Displayed()))
    {
      if currentMonth == 0 {
        currentMonth := 11;
        currentYear := currentYear - 1;
      } else {
        currentMonth := currentMonth - 1;
      }
    }

    /** `goToNextMonth`. */
    method GoToNextMonth()
      requires 0 <= currentMonth < 12
      modifies this`currentMonth, this`currentYear
      ensures 0 <= currentMonth < 12
      ensures Displayed() == NextMonth(old(Displayed()))
    {
      if currentMonth == 11 {
        currentMonth := 0;
        currentYear := currentYear + 1;
      } else {
        currentMonth := currentMonth + 1;
      }
    }

    /** `goToPreviousYear`. */
    method GoToPreviousYear()
      modifies this`currentYear
      ensures Displayed() == PreviousYear(old(Displayed()))
    {
      currentYear := currentYear - 1;
    }

    /** `goToNextYear`. */
    method GoToNextYear()
      modifies this`currentYear
      ensures Displayed() == NextYear(old(Displayed()))
    {
      currentYear := currentYear + 1;
    }

    /** `changePage(newPage)`: the menus and the page dots. */
    method ChangePage(newPage: ViewMode)
      modifies this`page
      ensures page == newPage
    {
      page := newPage;
    }

    /** A click on a month of the yearly grid: show that month on the monthly page. */
    method SelectMonth(month: int)
      requires 0 <= month < 12
      modifies this`currentMonth, this`page
      ensures currentMonth == month && page == Monthly
    {
      currentMonth := month;
      ChangePage(Monthly);
    }

    // ----- The swipe gesture -----

    /** `handleTouchStart`: remember where the pointer went down. */
    method HandleTouchStart(x: int)
      modifies this`startX
      ensures startX == Some(x)
    {
      startX := Some(x);
    }

    /**
     * `handleTouchMove` with the pointer at `x`: with a swipe under way,
     * a move past the threshold towards a neighbouring page goes there and
     * ends the swipe; anything else changes nothing.
     */
    method HandleTouchMove(x: int)
      modifies this`page, this`startX
      ensures old(startX).None? ==> page == old(page) && startX == old(startX)
      ensures old(startX).Some? ==>
                match SwipeTarget(old(page), old(startX).value - x)
                case Some(p) => page == p && startX == None
                case None => page == old(page) && startX == old(startX)
    {
      if startX.None? {
        return;
      }
      var diffX := startX.value - x;
      if diffX > SwipeThreshold && page == Daily {
        page := Monthly;
        startX := None;
      } else if diffX < -SwipeThreshold && page == Monthly {
        page := Daily;
        startX := None;
      } else if diffX > SwipeThreshold && page == Monthly {
        page := Yearly;
        startX := None;
      } else if diffX < -SwipeThreshold && page == Yearly {
        page := Monthly;
        startX := None;
      }
    }

    /** `handleTouchEnd`: the swipe is over. */
    method HandleTouchEnd()
      modifies this`startX
      ensures startX == None
    {
      startX := None;
    }
  }

  /**
   * A day in the life of the tracker: add "Read" on day `d1` and tick it;
   * on a later day `d2` the flag is clear, while the history still says it
   * was done on `d1`.
   */
  method ReadHabitScenario(d1: DateKey, d2: DateKey)
    returns (doneOnD1: bool, doneToday: bool, progressD1: real, progressD2: real)
    requires Before(d1, d2)
    ensures doneOnD1 && !doneToday
    ensures progressD1 == 100.0 && progressD2 == 0.0
  {
    var t := new HabitTracker(d1, 0, d1.year);
    AddTrimmedName([], "Read");
    t.AddHabit("Read");
    t.ToggleHabit(1);
    progressD1 := t.Progress();
    t.CheckForNewDay(d2);
    doneOnD1 := WasCompletedOnDate(t.habits[0], d1);
    doneToday := t.habits[0].completed;
    progressD2 := t.Progress();
  }

  /**
   * The clock set back: "Read" is ticked on March 1st, the day rolls to
   * March 2nd and then back to March 1st. The flag is now clear although
   * the history says it was done that day; the tracker still runs its
   * commands and its next tick.
   */
  method ClockSetBackScenario() returns (inStep: bool, flag: bool, recorded: bool)
    ensures !inStep && !flag && recorded
  {
    var d1 := DateKey(2024, 3, 1);
    var d2 := DateKey(2024, 3, 2);
    var t := new HabitTracker(d1, 2, 2024);
    AddTrimmedName([], "Read");
    t.AddHabit("Read");
    assert t.habits[0].id == 1 && !t.habits[0].completed;
    t.ToggleHabit(1);
    var done := t.habits[0];
    assert done.completed && WasCompletedOnDate(done, d1);
    t.CheckForNewDay(d2);
    t.CheckForNewDay(d1);
    var after := t.habits[0];
    assert after.history == done.history;
    recorded := WasCompletedOnDate(after, d1);
    flag := after.completed;
    assert recorded && !flag;
    assert !InSync(after, d1);
    inStep := t.InStep();
    t.CheckForNewDay(d1);
    t.GoToNextMonth();
  }

  /** A swipe left leaves the daily page for the monthly one; a swipe right comes back. */
  method SwipeScenario(now: DateKey) returns (middle: ViewMode, last: ViewMode)
    ensures middle == Monthly && last == Daily
  {
    var t := new HabitTracker(now, 0, now.year);
    t.HandleTouchStart(200);
    t.HandleTouchMove(100);
    middle := t.page;
    t.HandleTouchStart(100);
    t.HandleTouchMove(200);
    last := t.page;
  }
}
