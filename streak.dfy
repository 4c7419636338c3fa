/**
 * The streak scan `calculateStreak` (src/lib/database.ts).
 *
 * The scan walks the user's challenge days as the store returns them,
 * ordered by day number from the highest down. Days dated after today are
 * skipped; today's day adds one when completed and never ends the walk; an
 * earlier day adds one when completed and ends the walk when it is not.
 */
module Streak {
  import opened Types

  /** A day dated before today that is not completed ends the streak. */
  predicate Breaks(d: ChallengeDay, today: Date)
  {
    d.date < today && !d.isCompleted
  }

  /** The days, in list order, whose date is not after today. */
  function Elapsed(days: seq<ChallengeDay>, today: Date): (e: seq<ChallengeDay>)
    ensures |e| <= |days|
    ensures forall j :: 0 <= j < |e| ==> e[j].date <= today && e[j] in days
  {
    if days == [] then []
    else if days[0].date > today then Elapsed(days[1..], today)
    else [days[0]] + Elapsed(days[1..], today)
  }

  /** The number of completed days in a list. */
  function CountCompleted(days: seq<ChallengeDay>): (c: nat)
    ensures c <= |days|
  {
    if days == [] then 0
    else (if days[0].isCompleted then 1 else 0) + CountCompleted(days[1..])
  }

  /** The position of the first day that ends the streak, or the length when none does. */
  function FirstBreak(e: seq<ChallengeDay>, today: Date): (k: nat)
    ensures k <= |e|
    ensures forall j :: 0 <= j < k ==> !Breaks(e[j], today)
    ensures k < |e| ==> Breaks(e[k], today)
  {
    if e == [] then 0
    else if Breaks(e[0], today) then 0
    else 1 + FirstBreak(e[1..], today)
  }

  /**
   * The streak of a list of days, read from its front the way the scan
   * reads it. It never exceeds the number of days dated up to today.
   */
  function StreakOf(days: seq<ChallengeDay>, today: Date): (r: nat)
    ensures r <= |Elapsed(days, today)|
  {
    if days == [] then 0
    else
      var d := days[0];
      if d.date > today then StreakOf(days[1..], today)
      else if d.date == today then (if d.isCompleted then 1 else 0) + StreakOf(days[1..], today)
      else if d.isCompleted then 1 + StreakOf(days[1..], today)
      else 0
  }

  /**
   * `calculateStreak` on the list the store returned. An empty list gives
   * 0; otherwise the result is the streak of the list, which is at most the
   * number of days dated up to today.
   */
  method CalculateStreak(days: seq<ChallengeDay>, today: Date) returns (streak: nat)
    ensures days == [] ==> streak == 0
    ensures streak == StreakOf(days, today)
    ensures streak <= |Elapsed(days, today)|
  {
    if |days| == 0 {
      return 0;
    }
    streak := 0;
    // Set as in the source, and never read there either.
    var foundToday := false;
    for i := 0 to |days|
      invariant streak + StreakOf(days[i..], today) == StreakOf(days, today)
    {
      var day := days[i];
      assert days[i..][1..] == days[i + 1..];
      if day.date > today {
        continue;
      }
      if day.date == today {
        foundToday := true;
        if day.isCompleted {
          streak := streak + 1;
        }
        continue;
      }
      if day.isCompleted {
        streak := streak + 1;
      } else {
        break;
      }
    }
  }

  /**
   * The streak counts the completed days among the days up to today, read
   * in list order, before the first earlier day left incomplete.
   */
  lemma {:induction false} StreakCountsUpToFirstBreak(days: seq<ChallengeDay>, today: Date)
    ensures var e := Elapsed(days, today);
      StreakOf(days, today) == CountCompleted(e[..FirstBreak(e, today)])
  {
    if days != [] {
      var d, rest := days[0], days[1..];
      StreakCountsUpToFirstBreak(rest, today);
      var e' := Elapsed(rest, today);
      if d.date <= today && !Breaks(d, today) {
        var e := Elapsed(days, today);
        assert e == [d] + e';
        assert e[1..] == e';
        var k := FirstBreak(e', today);
        assert e[..1 + k] == [d] + e'[..k];
        assert ([d] + e'[..k])[1..] == e'[..k];
      }
    }
  }

  /** When every day up to today is completed, the streak is the number of such days. */
  lemma {:induction false} StreakWhenAllCompleted(days: seq<ChallengeDay>, today: Date)
    requires forall j :: 0 <= j < |days| && days[j].date <= today ==> days[j].isCompleted
    ensures StreakOf(days, today) == |Elapsed(days, today)|
  {
    if days != [] {
      assert forall j :: 0 <= j < |days[1..]| ==> days[1..][j] == days[j + 1];
      StreakWhenAllCompleted(days[1..], today);
    }
  }

  /** The list with its day at position i marked completed. */
  function MarkCompleted(days: seq<ChallengeDay>, i: nat): (r: seq<ChallengeDay>)
    requires i < |days|
    ensures |r| == |days| && r[i].isCompleted
    ensures forall j :: 0 <= j < |days| && j != i ==> r[j] == days[j]
  {
    days[i := days[i].(isCompleted := true)]
  }

  /**
   * An incomplete today does not break the streak: completing today's day,
   * when only future days come before it in the list, raises the streak
   * by exactly one.
   */
  lemma {:induction false} CompletingTodayAddsOne(days: seq<ChallengeDay>, i: nat, today: Date)
    requires i < |days| && days[i].date == today && !days[i].isCompleted
    requires forall j :: 0 <= j < i ==> days[j].date > today
    ensures StreakOf(MarkCompleted(days, i), today) == StreakOf(days, today) + 1
  {
    var marked := MarkCompleted(days, i);
    if i == 0 {
      assert marked[1..] == days[1..];
    } else {
      assert marked[1..] == MarkCompleted(days[1..], i - 1);
      CompletingTodayAddsOne(days[1..], i - 1, today);
    }
  }

  function Day(n: int, completed: bool): ChallengeDay
  {
    ChallengeDay(n, n, "", None, [], completed)
  }

  /**
   * Seven days dated 1 to 7, listed from day 7 down, with today = day 6:
   * days 1 to 5 completed and day 6 open gives 5; day 6 completed gives 6.
   */
  lemma StreakScenario()
    ensures StreakOf([Day(7, false), Day(6, false), Day(5, true), Day(4, true),
                      Day(3, true), Day(2, true), Day(1, true)], 6) == 5
    ensures StreakOf([Day(7, false), Day(6, true), Day(5, true), Day(4, true),
                      Day(3, true), Day(2, true), Day(1, true)], 6) == 6
  {
  }
}
