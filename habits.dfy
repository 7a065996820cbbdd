/**
 * The habit store: habits with a per-day completion history, and the
 * pure updaters that `addHabit`, `updateHabit`, `deleteHabit`,
 * `toggleHabit` and the day rollover apply to the list of habits.
 */
module Habits {
  import opened Wrappers
  import opened Dates
  import opened Text

  /** One history entry: whether the habit was done on `date`. */
  datatype Completion = Completion(date: DateKey, completed: bool)

  /** A habit; `completed` is the flag for the current day. */
  datatype Habit = Habit(id: int, name: string, completed: bool, history: seq<Completion>)

  // ----- Queries on the history -----

  /** `history.findIndex(entry => entry.date === date)`: the first entry for `date`. */
  function FindIndex(history: seq<Completion>, date: DateKey): (r: Option<nat>)
    ensures r.Some? ==> r.value < |history| && history[r.value].date == date
    ensures r.Some? ==> forall j :: 0 <= j < r.value ==> history[j].date != date
    ensures r.None? <==> forall j :: 0 <= j < |history| ==> history[j].date != date
  {
    if |history| == 0 then None
    else if history[0].date == date then Some(0)
    else
      match FindIndex(history[1..], date)
      case None => None
      case Some(k) => Some(k + 1)
  }

  /** Some entry of the history is for `date`. */
  predicate HasEntry(history: seq<Completion>, date: DateKey) {
    exists j :: 0 <= j < |history| && history[j].date == date
  }

  /**
   * `wasHabitCompletedOnDate`: the `completed` value of the first entry
   * for `date` (what `find` returns), or false when there is none.
   */
  function WasCompletedOnDate(habit: Habit, date: DateKey): (b: bool)
    ensures b ==> Completion(date, true) in habit.history
    ensures !HasEntry(habit.history, date) ==> !b
  {
    match FindIndex(habit.history, date)
    case None => false
    case Some(i) => habit.history[i].completed
  }

  /** At most one entry per date. */
  predicate UniqueDates(history: seq<Completion>) {
    forall i, j :: 0 <= i < j < |history| ==> history[i].date != history[j].date
  }

  /** With one entry per date, the lookup answers exactly what the history records. */
  lemma WasCompletedIffRecorded(habit: Habit, date: DateKey)
    requires UniqueDates(habit.history)
    ensures WasCompletedOnDate(habit, date) <==> Completion(date, true) in habit.history
    ensures !WasCompletedOnDate(habit, date) <==>
              (!HasEntry(habit.history, date) || Completion(date, false) in habit.history)
  {
    var h := habit.history;
    match FindIndex(h, date)
    case None =>
    case Some(i) =>
      forall j | 0 <= j < |h| && h[j].date == date ensures j == i {
      }
  }

  /** The first entry for `date` is the one at `i`. */
  lemma FindIndexIs(history: seq<Completion>, date: DateKey, i: nat)
    requires i < |history| && history[i].date == date
    requires forall j :: 0 <= j < i ==> history[j].date != date
    ensures FindIndex(history, date) == Some(i)
  {
    match FindIndex(history, date)
    case None =>
    case Some(k) =>
      if k < i {
      } else if k > i {
      }
  }

  // ----- toggleHabit -----

  /**
   * The branch of `toggleHabit` for the habit whose id matched: flip the
   * flag, then overwrite the first history entry for `today` in place, or
   * append one when there is none.
   */
  function Toggled(habit: Habit, today: DateKey): (r: Habit)
    ensures r.id == habit.id && r.name == habit.name && r.completed == !habit.completed
  {
    var newCompleted := !habit.completed;
    var entry := Completion(today, newCompleted);
    match FindIndex(habit.history, today)
    case Some(i) => habit.(completed := newCompleted, history := habit.history[i := entry])
    case None => habit.(completed := newCompleted, history := habit.history + [entry])
  }

  /**
   * After a toggle the day's lookup gives the new flag; the history keeps
   * its length when it already had an entry for the day and grows by one
   * otherwise; and what it says about every other day is unchanged.
   */
  lemma ToggledRecordsToday(habit: Habit, today: DateKey)
    ensures WasCompletedOnDate(Toggled(habit, today), today) == Toggled(habit, today).completed
    ensures HasEntry(Toggled(habit, today).history, today)
    ensures |Toggled(habit, today).history| ==
              if HasEntry(habit.history, today) then |habit.history| else |habit.history| + 1
    ensures forall d :: d != today ==>
              WasCompletedOnDate(Toggled(habit, today), d) == WasCompletedOnDate(habit, d)
  {
    var h := habit.history;
    var r := Toggled(habit, today);
    match FindIndex(h, today) {
      case Some(i) =>
        assert r.history == h[i := Completion(today, !habit.completed)];
        FindIndexIs(r.history, today, i);
      case None =>
        assert r.history == h + [Completion(today, !habit.completed)];
        FindIndexIs(r.history, today, |h|);
    }
    forall d | d != today ensures WasCompletedOnDate(r, d) == WasCompletedOnDate(habit, d) {
      ToggledKeepsOtherDay(habit, today, d);
    }
  }

  /** A toggle leaves what the history says about any other day. */
  lemma ToggledKeepsOtherDay(habit: Habit, today: DateKey, d: DateKey)
    requires d != today
    ensures WasCompletedOnDate(Toggled(habit, today), d) == WasCompletedOnDate(habit, d)
  {
    var h := habit.history;
    var r := Toggled(habit, today).history;
    assert |r| >= |h|;
    assert forall j :: 0 <= j < |r| ==>
             && (r[j].date == d <==> j < |h| && h[j].date == d)
             && (j < |h| && h[j].date == d ==> r[j] == h[j]);
    match FindIndex(h, d)
    case None =>
    case Some(k) =>
      FindIndexIs(r, d, k);
  }

  /** A toggle keeps one entry per date, and never dates an entry after `today`. */
  lemma ToggledKeepsHistoryShape(habit: Habit, today: DateKey)
    requires UniqueDates(habit.history)
    ensures UniqueDates(Toggled(habit, today).history)
    ensures forall e :: e in Toggled(habit, today).history ==> e in habit.history || e.date == today
  {
    var h := habit.history;
    var r := Toggled(habit, today).history;
    match FindIndex(h, today)
    case Some(i) =>
      assert r == h[i := Completion(today, !habit.completed)];
      forall a, b | 0 <= a < b < |r| ensures r[a].date != r[b].date {
        assert r[a].date == h[a].date && r[b].date == h[b].date;
      }
      forall e | e in r ensures e in h || e.date == today {
        var k :| 0 <= k < |r| && r[k] == e;
        if k != i { assert h[k] == e; }
      }
    case None =>
      assert r == h + [Completion(today, !habit.completed)];
      forall a, b | 0 <= a < b < |r| ensures r[a].date != r[b].date {
        if b == |h| { assert r[a] == h[a]; }
      }
  }

  /**
   * Toggling twice on one day restores the flag and leaves one entry for
   * the day holding that flag; for a habit whose flag agrees with its
   * entry for the day, the habit comes back exactly.
   */
  lemma ToggleTwice(habit: Habit, today: DateKey)
    requires UniqueDates(habit.history)
    ensures Toggled(Toggled(habit, today), today).completed == habit.completed
    ensures UniqueDates(Toggled(Toggled(habit, today), today).history)
    ensures Completion(today, habit.completed) in Toggled(Toggled(habit, today), today).history
    ensures (HasEntry(habit.history, today) && habit.completed == WasCompletedOnDate(habit, today))
              ==> Toggled(Toggled(habit, today), today) == habit
  {
    var once := Toggled(habit, today);
    var twice := Toggled(once, today);
    ToggledKeepsHistoryShape(habit, today);
    ToggledKeepsHistoryShape(once, today);
    ToggledRecordsToday(once, today);
    WasCompletedIffRecorded(twice, today);
    if HasEntry(habit.history, today) && habit.completed == WasCompletedOnDate(habit, today) {
      ToggleTwiceRestores(habit, today);
    }
  }

  /** The second toggle writes the first one's entry back. */
  lemma ToggleTwiceRestores(habit: Habit, today: DateKey)
    requires UniqueDates(habit.history) && HasEntry(habit.history, today)
    requires habit.completed == WasCompletedOnDate(habit, today)
    ensures Toggled(Toggled(habit, today), today) == habit
  {
    var h := habit.history;
    var once := Toggled(habit, today);
    var i := FindIndex(h, today).value;
    assert once.history == h[i := Completion(today, !habit.completed)];
    FindIndexIs(once.history, today, i);
    assert h[i] == Completion(today, habit.completed);
    assert Toggled(once, today).history == h[i := Completion(today, habit.completed)];
  }

  /** `toggleHabit(id)` on the list: every habit with that id is toggled, the rest kept. */
  function ToggleHabit(habits: seq<Habit>, id: int, today: DateKey): (r: seq<Habit>)
    ensures |r| == |habits|
    ensures forall i :: 0 <= i < |r| ==>
              r[i] == if habits[i].id == id then Toggled(habits[i], today) else habits[i]
  {
    if habits == [] then []
    else
      [if habits[0].id == id then Toggled(habits[0], today) else habits[0]]
      + ToggleHabit(habits[1..], id, today)
  }

  // ----- addHabit -----

  /** `Math.max(...habits.map(h => h.id))`. */
  function MaxId(habits: seq<Habit>): (m: int)
    requires |habits| > 0
    ensures forall i :: 0 <= i < |habits| ==> habits[i].id <= m
    ensures exists i :: 0 <= i < |habits| && habits[i].id == m
  {
    if |habits| == 1 then habits[0].id
    else
      var rest := MaxId(habits[1..]);
      assert forall i :: 1 <= i < |habits| ==> habits[i].id == habits[1..][i - 1].id;
      if habits[0].id >= rest then habits[0].id else rest
  }

  /**
   * The id `addHabit` assigns: one more than the largest id present, or 1
   * for an empty list; it is larger than every id present.
   */
  function NextId(habits: seq<Habit>): (id: int)
    ensures forall i :: 0 <= i < |habits| ==> habits[i].id < id
    ensures habits == [] ==> id == 1
    ensures habits != [] ==> exists i :: 0 <= i < |habits| && habits[i].id == id - 1
  {
    if |habits| > 0 then MaxId(habits) + 1 else 1
  }

  /**
   * `addHabit` with the typed name: nothing happens to a blank name;
   * otherwise one new habit with the trimmed name, a fresh id, the flag
   * cleared and an empty history goes at the end.
   */
  function AddHabit(habits: seq<Habit>, name: string): (r: seq<Habit>)
    ensures habits <= r && |r| <= |habits| + 1
    ensures |r| > |habits| ==> !r[|habits|].completed && r[|habits|].history == []
  {
    if Trim(name) == [] then habits
    else habits + [Habit(NextId(habits), Trim(name), false, [])]
  }

  lemma AddHabitEffect(habits: seq<Habit>, name: string)
    ensures (forall k :: 0 <= k < |name| ==> IsWhiteSpace(name[k])) ==> AddHabit(habits, name) == habits
    ensures !(forall k :: 0 <= k < |name| ==> IsWhiteSpace(name[k])) ==>
              var r := AddHabit(habits, name);
              && |r| == |habits| + 1 && r[..|habits|] == habits
              && r[|habits|].name == Trim(name) && IsTrimmed(r[|habits|].name) && r[|habits|].name != []
              && !r[|habits|].completed && r[|habits|].history == []
              && r[|habits|].id == NextId(habits)
              && forall i :: 0 <= i < |habits| ==> habits[i].id < r[|habits|].id
  {
    TrimEmptyIffBlank(name);
    TrimIsMiddle(name);
    var r := AddHabit(habits, name);
    if Trim(name) != [] {
      assert r[..|habits|] == habits;
    }
  }

  /**
   * Ids are reused: after the habit with the largest id is deleted, the
   * next habit added gets that id again, and after the last habit is
   * deleted the next one gets id 1.
   */
  lemma IdReusedAfterDeletingMax(a: Habit, b: Habit)
    requires a.id == 1 && b.id == 2
    ensures NextId([a]) == b.id
    ensures DeleteHabit([a, b], b.id) == [a] && NextId(DeleteHabit([a, b], b.id)) == b.id
    ensures DeleteHabit([a], a.id) == [] && NextId(DeleteHabit([a], a.id)) == a.id
  {
    assert [a, b][1..] == [b];
    assert [a][1..] == [];
  }

  /** A name with no white space at its ends is stored as typed. */
  lemma AddTrimmedName(habits: seq<Habit>, name: string)
    requires name != [] && IsTrimmed(name)
    ensures AddHabit(habits, name) == habits + [Habit(NextId(habits), name, false, [])]
  {
    TrimOfTrimmed(name);
  }

  // ----- updateHabit -----

  /** The map of `updateHabit`: every habit with that id takes `name`. */
  function Rename(habits: seq<Habit>, id: int, name: string): (r: seq<Habit>)
    ensures |r| == |habits|
    ensures forall i :: 0 <= i < |r| ==>
              r[i] == if habits[i].id == id then habits[i].(name := name) else habits[i]
  {
    if habits == [] then []
    else [if habits[0].id == id then habits[0].(name := name) else habits[0]]
         + Rename(habits[1..], id, name)
  }

  /**
   * `updateHabit(id, newName)`: nothing happens to a blank name; otherwise
   * the habit with that id takes the trimmed name and keeps its id, flag,
   * history and position, and every other habit is unchanged.
   */
  function UpdateHabit(habits: seq<Habit>, id: int, newName: string): (r: seq<Habit>)
    ensures |r| == |habits|
    ensures forall i :: 0 <= i < |r| ==>
              && r[i].id == habits[i].id && r[i].completed == habits[i].completed
              && r[i].history == habits[i].history
              && r[i].name == (if habits[i].id == id && Trim(newName) != [] then Trim(newName)
                               else habits[i].name)
  {
    if Trim(newName) == [] then habits else Rename(habits, id, Trim(newName))
  }

  // ----- deleteHabit -----

  /**
   * `deleteHabit(id)`: `habits.filter(h => h.id !== id)`; no habit with
   * that id remains.
   */
  function DeleteHabit(habits: seq<Habit>, id: int): (r: seq<Habit>)
    ensures |r| <= |habits|
    ensures forall i :: 0 <= i < |r| ==> r[i].id != id
  {
    if habits == [] then []
    else (if habits[0].id != id then [habits[0]] else []) + DeleteHabit(habits[1..], id)
  }

  /** Exactly the habits with another id remain. */
  lemma {:induction false} DeleteKeepsOthers(habits: seq<Habit>, id: int)
    ensures forall h :: h in DeleteHabit(habits, id) <==> h in habits && h.id != id
  {
    if habits != [] {
      DeleteKeepsOthers(habits[1..], id);
      assert habits == [habits[0]] + habits[1..];
    }
  }

  /** Deleting keeps the order of what remains: it distributes over concatenation. */
  lemma {:induction false} DeleteDistributes(a: seq<Habit>, b: seq<Habit>, id: int)
    ensures DeleteHabit(a + b, id) == DeleteHabit(a, id) + DeleteHabit(b, id)
  {
    if a == [] {
      assert a + b == b;
    } else {
      var c := a + b;
      assert c[0] == a[0];
      assert c[1..] == a[1..] + b;
      DeleteDistributes(a[1..], b, id);
      var head := if a[0].id != id then [a[0]] else [];
      calc {
        DeleteHabit(c, id);
        head + DeleteHabit(a[1..] + b, id);
        head + (DeleteHabit(a[1..], id) + DeleteHabit(b, id));
        (head + DeleteHabit(a[1..], id)) + DeleteHabit(b, id);
      }
    }
  }

  /** An id that no habit has: deleting it changes nothing. */
  lemma {:induction false} DeleteAbsent(habits: seq<Habit>, id: int)
    requires forall i :: 0 <= i < |habits| ==> habits[i].id != id
    ensures DeleteHabit(habits, id) == habits
  {
    if habits != [] {
      DeleteAbsent(habits[1..], id);
    }
  }

  /** With unique ids, deleting the id held at `k` removes exactly position `k`. */
  lemma DeleteAt(habits: seq<Habit>, id: int, k: nat)
    requires UniqueIds(habits)
    requires k < |habits| && habits[k].id == id
    ensures DeleteHabit(habits, id) == habits[..k] + habits[k + 1..]
  {
    DeleteOnlyAt(habits, id, k);
  }

  /** When only position `k` holds the id, deleting it removes exactly that position. */
  lemma {:induction false} DeleteOnlyAt(habits: seq<Habit>, id: int, k: nat)
    requires k < |habits| && habits[k].id == id
    requires forall i :: 0 <= i < |habits| && i != k ==> habits[i].id != id
    ensures DeleteHabit(habits, id) == habits[..k] + habits[k + 1..]
  {
    var tail := habits[1..];
    if k == 0 {
      assert forall i :: 0 <= i < |tail| ==> tail[i] == habits[i + 1];
      DeleteAbsent(tail, id);
      assert habits[..0] + habits[1..] == tail;
    } else {
      assert forall i :: 0 <= i < |tail| && i != k - 1 ==> tail[i] == habits[i + 1];
      DeleteOnlyAt(tail, id, k - 1);
      assert habits[..k] == [habits[0]] + tail[..k - 1];
      assert habits[k + 1..] == tail[k..];
    }
  }

  // ----- The day rollover -----

  /** The map of `checkForNewDay`: every flag cleared, everything else kept. */
  function ResetCompleted(habits: seq<Habit>): (r: seq<Habit>)
    ensures |r| == |habits|
    ensures forall i :: 0 <= i < |r| ==>
              !r[i].completed && r[i].id == habits[i].id && r[i].name == habits[i].name
              && r[i].history == habits[i].history
  {
    if habits == [] then [] else [habits[0].(completed := false)] + ResetCompleted(habits[1..])
  }

  // ----- Invariants of the store -----

  predicate UniqueIds(habits: seq<Habit>) {
    forall i, j :: 0 <= i < j < |habits| ==> habits[i].id != habits[j].id
  }

  /** A habit as the operations create it: positive id, trimmed non-blank name, one entry per day. */
  predicate WellFormedHabit(h: Habit) {
    h.id >= 1 && h.name != [] && IsTrimmed(h.name) && UniqueDates(h.history)
  }

  predicate WellFormed(habits: seq<Habit>) {
    UniqueIds(habits) && forall i :: 0 <= i < |habits| ==> WellFormedHabit(habits[i])
  }

  /** No entry is dated after `today`. */
  predicate NoEntryAfter(history: seq<Completion>, today: DateKey) {
    forall j :: 0 <= j < |history| ==> !Before(today, history[j].date)
  }

  /** The flag is what the history records for `today`, and nothing is recorded later. */
  predicate InSync(h: Habit, today: DateKey): (r: bool)
    ensures r && h.completed ==> Completion(today, true) in h.history
  {
    h.completed == WasCompletedOnDate(h, today) && NoEntryAfter(h.history, today)
  }

  /** Every habit is in step with `today`: a raised flag always has its day's completion recorded. */
  predicate Synced(habits: seq<Habit>, today: DateKey): (r: bool)
    ensures r ==> forall i :: 0 <= i < |habits| && habits[i].completed ==>
                    Completion(today, true) in habits[i].history
  {
    forall i :: 0 <= i < |habits| ==> InSync(habits[i], today)
  }

  lemma AddHabitPreserves(habits: seq<Habit>, name: string, today: DateKey)
    requires WellFormed(habits)
    ensures WellFormed(AddHabit(habits, name))
    ensures Synced(habits, today) ==> Synced(AddHabit(habits, name), today)
  {
    TrimIsMiddle(name);
    var r := AddHabit(habits, name);
    if Trim(name) != [] {
      assert forall i :: 0 <= i < |habits| ==> r[i] == habits[i];
      assert r[|habits|].id >= 1 by {
        if |habits| > 0 { assert habits[0].id < r[|habits|].id; }
      }
    }
  }

  lemma UpdateHabitPreserves(habits: seq<Habit>, id: int, newName: string, today: DateKey)
    requires WellFormed(habits)
    ensures WellFormed(UpdateHabit(habits, id, newName))
    ensures Synced(habits, today) ==> Synced(UpdateHabit(habits, id, newName), today)
  {
    TrimIsMiddle(newName);
    var r := UpdateHabit(habits, id, newName);
    if Synced(habits, today) {
      forall i | 0 <= i < |r| ensures InSync(r[i], today) {
        assert WasCompletedOnDate(r[i], today) == WasCompletedOnDate(habits[i], today);
      }
    }
  }

  lemma DeleteHabitPreserves(habits: seq<Habit>, id: int, today: DateKey)
    requires WellFormed(habits)
    ensures WellFormed(DeleteHabit(habits, id))
    ensures Synced(habits, today) ==> Synced(DeleteHabit(habits, id), today)
  {
    var r := DeleteHabit(habits, id);
    DeleteKeepsOthers(habits, id);
    forall i | 0 <= i < |r|
      ensures WellFormedHabit(r[i]) && (Synced(habits, today) ==> InSync(r[i], today))
    {
      assert r[i] in habits;
    }
    DeleteKeepsUniqueIds(habits, id);
  }

  lemma DeleteKeepsUniqueIds(habits: seq<Habit>, id: int)
    requires UniqueIds(habits)
    ensures UniqueIds(DeleteHabit(habits, id))
  {
    if k :| 0 <= k < |habits| && habits[k].id == id {
      DeleteAt(habits, id, k);
      var r := habits[..k] + habits[k + 1..];
      forall a, b | 0 <= a < b < |r| ensures r[a].id != r[b].id {
        var a' := if a < k then a else a + 1;
        var b' := if b < k then b else b + 1;
        assert r[a] == habits[a'] && r[b] == habits[b'];
      }
    } else {
      DeleteAbsent(habits, id);
    }
  }

  /**
   * Toggling keeps every invariant: afterwards the toggled habit's flag is
   * again what its history records for today.
   */
  lemma ToggleHabitPreserves(habits: seq<Habit>, id: int, today: DateKey)
    requires WellFormed(habits)
    ensures WellFormed(ToggleHabit(habits, id, today))
    ensures Synced(habits, today) ==> Synced(ToggleHabit(habits, id, today), today)
  {
    var r := ToggleHabit(habits, id, today);
    forall i | 0 <= i < |r| && habits[i].id == id
      ensures WellFormedHabit(r[i])
      ensures NoEntryAfter(habits[i].history, today) ==> InSync(r[i], today)
    {
      ToggledRecordsToday(habits[i], today);
      ToggledKeepsHistoryShape(habits[i], today);
      if NoEntryAfter(habits[i].history, today) {
        forall j | 0 <= j < |r[i].history| ensures !Before(today, r[i].history[j].date) {
          var e := r[i].history[j];
          assert e in r[i].history;
          if e !in habits[i].history {
            assert e.date == today;
          } else {
            var k :| 0 <= k < |habits[i].history| && habits[i].history[k] == e;
          }
        }
      }
    }
  }

  /**
   * The rollover to a later day clears every flag and touches no history,
   * and the flags are then in step with the histories for the new day.
   */
  lemma ResetForLaterDay(habits: seq<Habit>, today: DateKey, now: DateKey)
    requires WellFormed(habits) && Synced(habits, today)
    requires Before(today, now)
    ensures WellFormed(ResetCompleted(habits)) && Synced(ResetCompleted(habits), now)
  {
    var r := ResetCompleted(habits);
    forall i | 0 <= i < |r| ensures InSync(r[i], now) {
      var h := r[i].history;
      forall j | 0 <= j < |h| ensures h[j].date != now && !Before(now, h[j].date) {
        assert !Before(today, h[j].date);
        BeforeIsStrictTotalOrder(today, now, h[j].date);
      }
      assert !HasEntry(h, now);
    }
  }

  /**
   * The rollover to any day on which some habit is recorded as done leaves
   * that habit out of step: its flag is cleared while its history says
   * done. A clock set back to such a day is the case that reaches it.
   */
  lemma {:induction false} ResetToDoneDayBreaksSync(habits: seq<Habit>, i: nat, now: DateKey)
    requires WellFormed(habits)
    requires i < |habits| && Completion(now, true) in habits[i].history
    ensures !InSync(ResetCompleted(habits)[i], now)
    ensures !Synced(ResetCompleted(habits), now)
  {
    WasCompletedIffRecorded(ResetCompleted(habits)[i], now);
  }

  /**
   * Moving the day backwards (a clock set back) breaks the agreement: a
   * habit done on the earlier day shows as not done although its
   * history says it was.
   */
  lemma ResetForEarlierDayBreaksSync()
    ensures var d1 := DateKey(2024, 3, 1);
            var d2 := DateKey(2024, 3, 2);
            var habits := [Habit(1, "Read", false, [Completion(d1, true)])];
            && WellFormed(habits) && Synced(habits, d2)
            && !Synced(ResetCompleted(habits), d1)
  {
    var d1 := DateKey(2024, 3, 1);
    var d2 := DateKey(2024, 3, 2);
    var habits := [Habit(1, "Read", false, [Completion(d1, true)])];
    assert FindIndex(habits[0].history, d2) == None;
    assert FindIndex(ResetCompleted(habits)[0].history, d1) == Some(0);
  }
}
