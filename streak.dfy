/**
 * The current practice streak of the practice list page: the number of
 * consecutive calendar days, ending today, on each of which at least one
 * session was logged. Dates are day numbers; `today` is passed in.
 */
module Streak {

  /** The distinct days that occur in a list of practice dates. */
  function Days(dates: seq<int>): (days: set<int>)
    ensures forall d :: d in days <==> d in dates
  {
    set d | d in dates
  }

  /** The length of the run of consecutive days in `days` that ends at `day`. */
  function RunEndingAt(days: set<int>, day: int): nat
    decreases days
  {
    if day in days then 1 + RunEndingAt(days - {day}, day - 1) else 0
  }

  /**
   * The specification of the streak: how many of the days today, today - 1,
   * today - 2, ... in a row occur among the practice dates.
   */
  function RunEndingToday(dates: seq<int>, today: int): nat {
    RunEndingAt(Days(dates), today)
  }

  /**
   * `RunEndingAt` is the run, and the longest one: every day of
   * (day - k, day] is present, day - k is not, and a run of distinct days
   * cannot be longer than the set holding them.
   */
  lemma {:induction false} RunEndingAtIsLongestRun(days: set<int>, day: int)
    ensures forall d :: day - RunEndingAt(days, day) < d <= day ==> d in days
    ensures day - RunEndingAt(days, day) !in days
    ensures RunEndingAt(days, day) <= |days|
    decreases days
  {
    if day in days {
      RunEndingAtIsLongestRun(days - {day}, day - 1);
    }
  }

  /** Conversely, a run that is present and not extended is the one `RunEndingAt` finds. */
  lemma RunEndingAtUnique(days: set<int>, day: int, k: nat)
    requires forall d :: day - k < d <= day ==> d in days
    requires day - k !in days
    ensures RunEndingAt(days, day) == k
  {
    RunEndingAtIsLongestRun(days, day);
  }

  /** The run ending at `day` depends only on which days up to `day` are present. */
  lemma {:induction false} RunEndingAtIgnoresLaterDays(a: set<int>, b: set<int>, day: int)
    requires forall d :: d <= day ==> (d in a <==> d in b)
    ensures RunEndingAt(a, day) == RunEndingAt(b, day)
    decreases a
  {
    if day in a {
      RunEndingAtIgnoresLaterDays(a - {day}, b - {day}, day - 1);
    }
  }

  /** The streak is exactly the longest run of present days that ends today. */
  lemma StreakIsLongestRunEndingToday(dates: seq<int>, today: int)
    ensures forall d :: today - RunEndingToday(dates, today) < d <= today ==> d in dates
    ensures today - RunEndingToday(dates, today) !in dates
    ensures RunEndingToday(dates, today) <= |Days(dates)| <= |dates|
  {
    RunEndingAtIsLongestRun(Days(dates), today);
    DistinctDaysAtMostDates(dates);
  }

  lemma {:induction false} DistinctDaysAtMostDates(dates: seq<int>)
    ensures |Days(dates)| <= |dates|
  {
    if dates != [] {
      DistinctDaysAtMostDates(dates[1..]);
      assert Days(dates) == Days(dates[1..]) + {dates[0]};
    }
  }

  /** No dates, no streak; and without a session today there is no streak either. */
  lemma StreakNeedsToday(dates: seq<int>, today: int)
    ensures RunEndingToday([], today) == 0
    ensures RunEndingToday(dates, today) > 0 <==> today in dates
  {
  }

  /** Sessions dated after today never change the streak. */
  lemma StreakIgnoresFutureDates(dates: seq<int>, future: seq<int>, today: int)
    requires forall d :: d in future ==> d > today
    ensures RunEndingToday(dates + future, today) == RunEndingToday(dates, today)
  {
    RunEndingAtIgnoresLaterDays(Days(dates + future), Days(dates), today);
  }

  /** Logging another session on a day that already has one leaves the streak unchanged. */
  lemma StreakIgnoresRepeatedDay(dates: seq<int>, i: nat, d: int, today: int)
    requires i <= |dates| && d in dates
    ensures RunEndingToday(dates[..i] + [d] + dates[i..], today) == RunEndingToday(dates, today)
  {
    var more := dates[..i] + [d] + dates[i..];
    assert dates == dates[..i] + dates[i..];
    assert Days(more) == Days(dates);
  }

  /** Worked cases, including the anchor rule: yesterday alone is no streak. */
  lemma StreakExamples(today: int)
    ensures RunEndingToday([today], today) == 1
    ensures RunEndingToday([today, today - 1, today - 2], today) == 3
    ensures RunEndingToday([today, today, today - 1], today) == 2
    ensures RunEndingToday([today - 1], today) == 0
    ensures RunEndingToday([today, today - 2], today) == 1
  {
    RunEndingAtUnique(Days([today]), today, 1);
    RunEndingAtUnique(Days([today, today - 1, today - 2]), today, 3);
    RunEndingAtUnique(Days([today, today, today - 1]), today, 2);
    RunEndingAtUnique(Days([today, today - 2]), today, 1);
  }

  /** Day numbers in non-increasing order, as the query orders them (by date, descending). */
  predicate Descending(s: seq<int>) {
    forall i, j :: 0 <= i < j < |s| ==> s[i] >= s[j]
  }

  /** Every element of `s` is at most `b`. */
  predicate AtMost(s: seq<int>, b: int) {
    forall i :: 0 <= i < |s| ==> s[i] <= b
  }

  lemma AtMostOfMultiset(r: seq<int>, s: seq<int>, x: int, b: int)
    requires multiset(r) == multiset(s) + multiset{x}
    requires AtMost(s, b) && x <= b
    ensures AtMost(r, b)
  {
    forall i | 0 <= i < |r| ensures r[i] <= b {
      assert r[i] in multiset(r);
      assert r[i] == x || r[i] in multiset(s);
    }
  }

  lemma DescendingCons(h: int, s: seq<int>)
    requires Descending(s) && AtMost(s, h)
    ensures Descending([h] + s)
  {
  }

  /** Inserts `x` into a descending list. */
  function InsertDescending(x: int, s: seq<int>): (r: seq<int>)
    requires Descending(s)
    ensures Descending(r)
    ensures multiset(r) == multiset(s) + multiset{x}
  {
    if s == [] || x >= s[0] then [x] + s
    else
      var rest := InsertDescending(x, s[1..]);
      assert s == [s[0]] + s[1..];
      assert AtMost(s[1..], s[0]);
      AtMostOfMultiset(rest, s[1..], x, s[0]);
      DescendingCons(s[0], rest);
      [s[0]] + rest
  }

  /** Orders day numbers from the latest to the earliest. */
  function SortDescending(s: seq<int>): (r: seq<int>)
    ensures Descending(r)
    ensures multiset(r) == multiset(s)
  {
    if s == [] then []
    else
      assert s == [s[0]] + s[1..];
      InsertDescending(s[0], SortDescending(s[1..]))
  }

  /** The dates of the list that are not after `today`, each as often as it occurs. */
  function OnOrBefore(dates: seq<int>, today: int): (r: seq<int>)
    ensures forall d :: multiset(r)[d] == if d <= today then multiset(dates)[d] else 0
    ensures forall d :: d in r <==> d in dates && d <= today
  {
    if dates == [] then []
    else
      assert dates == [dates[0]] + dates[1..];
      if dates[0] <= today then [dates[0]] + OnOrBefore(dates[1..], today)
      else OnOrBefore(dates[1..], today)
  }

  /** The query the streak walks: all dates up to today, latest first. */
  function EntryDates(dates: seq<int>, today: int): (r: seq<int>)
    ensures Descending(r)
    ensures forall d :: d in r <==> d in dates && d <= today
  {
    var o := OnOrBefore(dates, today);
    var r := SortDescending(o);
    assert forall d :: d in r <==> d in multiset(r);
    assert forall d :: d in o <==> d in multiset(o);
    r
  }

  /** The query keeps one entry per session dated up to today, and nothing else. */
  lemma EntryDatesKeepsEverySession(dates: seq<int>, today: int)
    ensures forall d :: multiset(EntryDates(dates, today))[d] == if d <= today then multiset(dates)[d] else 0
    ensures |EntryDates(dates, today)| == |OnOrBefore(dates, today)|
  {
  }

  /** In a descending list nothing after position `i` exceeds the element at `i`. */
  lemma DescendingTail(s: seq<int>, i: nat)
    requires Descending(s) && i < |s|
    ensures forall j :: i <= j < |s| ==> s[j] <= s[i]
  {
  }

  /**
   * Where the walk stops the run is over: if every date before position `i`
   * is at or after the cursor and every date from `i` on is before the day
   * before the cursor, the day before the cursor has no session.
   */
  lemma WalkStopsAtGap(dates: seq<int>, today: int, cursor: int, i: nat)
    requires cursor <= today + 1 && i <= |EntryDates(dates, today)|
    requires forall j :: 0 <= j < i ==> cursor <= EntryDates(dates, today)[j]
    requires forall j :: i <= j < |EntryDates(dates, today)| ==> EntryDates(dates, today)[j] < cursor - 1
    requires forall d :: cursor <= d <= today ==> d in EntryDates(dates, today)
    ensures cursor - 1 !in dates
    ensures forall d :: cursor <= d <= today ==> d in dates
  {
  }

  /**
   * The greedy walk of the practice list page: from a cursor set to tomorrow,
   * a date exactly one day before the cursor extends the streak, a repeat of
   * the cursor's day is skipped, and anything else ends the walk.
   */
  method CurrentStreak(dates: seq<int>, today: int) returns (totalStreak: nat)
    ensures totalStreak == RunEndingToday(dates, today)
    ensures forall d :: today - totalStreak < d <= today ==> d in dates
    ensures today - totalStreak !in dates
  {
    totalStreak := 0;
    var currentStreak: nat := 0;
    var compareDate := today + 1;
    var entryDates := EntryDates(dates, today);
    var i := 0;
    assert |entryDates| > 0 ==> entryDates[0] in entryDates && entryDates[0] <= today;
    while i < |entryDates|
      invariant 0 <= i <= |entryDates|
      invariant compareDate == today + 1 - currentStreak
      invariant forall d :: compareDate <= d <= today ==> d in entryDates
      invariant forall j :: 0 <= j < i ==> compareDate <= entryDates[j]
      invariant i < |entryDates| ==> entryDates[i] <= compareDate
    {
      var delta := compareDate - entryDates[i];
      if delta == 1 {
        currentStreak := currentStreak + 1;
      } else if delta == 0 {
      } else {
        DescendingTail(entryDates, i);
        break;
      }
      assert i + 1 < |entryDates| ==> entryDates[i + 1] <= entryDates[i];
      compareDate := entryDates[i];
      i := i + 1;
    }
    WalkStopsAtGap(dates, today, compareDate, i);
    if currentStreak > totalStreak {
      totalStreak := currentStreak;
    }
    RunEndingAtUnique(Days(dates), today, totalStreak);
  }
}
