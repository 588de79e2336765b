/**
 The study streak of updateStatsAfterAttempt: three counters updated from the previous value and the
 difference in calendar days, against what a streak means for the history of active days. Days are taken
 to be 24 hours long, as the source's division by 86400000 assumes.
 */
module Streak {
  const DAY_MS: nat := 86400000

  function DayOf(time: nat): nat {
    time / DAY_MS
  }

  /** Days are counted by whole 24 hours: two instants fall on one day exactly when no multiple of 24 hours separates them. */
  lemma DayLastsTwentyFourHours(a: nat, b: nat, day: nat)
    requires day * (24 * 60 * 60 * 1000) <= a < (day + 1) * (24 * 60 * 60 * 1000)
    ensures DayOf(a) == day
    ensures DayOf(b) == DayOf(a) <==> day * (24 * 60 * 60 * 1000) <= b < (day + 1) * (24 * 60 * 60 * 1000)
  {
  }

  /** A further submission on the same day leaves the streak alone; one on the next day extends it; any later one restarts it. */
  lemma InstantsAdvance(c: Counters, last: nat, now: nat, day: nat)
    requires day * (24 * 60 * 60 * 1000) <= last < (day + 1) * (24 * 60 * 60 * 1000) && last <= now
    ensures var next := Advance(c, false, DayOf(now) - DayOf(last)).current;
            && (now < (day + 1) * (24 * 60 * 60 * 1000) ==> next == c.current)
            && ((day + 1) * (24 * 60 * 60 * 1000) <= now < (day + 2) * (24 * 60 * 60 * 1000) ==> next == c.current + 1)
            && ((day + 2) * (24 * 60 * 60 * 1000) <= now ==> next == 1)
  {
    DayLastsTwentyFourHours(last, now, day);
    if now < (day + 2) * (24 * 60 * 60 * 1000) && (day + 1) * (24 * 60 * 60 * 1000) <= now { DayLastsTwentyFourHours(now, now, day + 1); }
  }

  datatype Counters = Counters(current: nat, longest: nat)

  /** `first`: nothing was solved before; `dayDiff`: today's day minus the day of the stored updatedAt. */
  function Advance(c: Counters, first: bool, dayDiff: int): Counters {
    var current :=
      if first then 1
      else if dayDiff == 1 then c.current + 1
      else if dayDiff > 1 then 1
      else c.current;
    Counters(current, if current > c.longest then current else c.longest)
  }

  // ---------------------------------------------------------------- the definition

  /** The `n` days up to and including `day` are all active. */
  ghost predicate IsRun(days: seq<nat>, day: int, n: nat) {
    forall d: int :: day - n < d <= day ==> ActiveOn(days, d)
  }

  predicate ActiveOn(days: seq<nat>, day: int) {
    exists k :: 0 <= k < |days| && days[k] == day
  }

  predicate Chronological(days: seq<nat>) {
    forall i, j :: 0 <= i < j < |days| ==> days[i] <= days[j]
  }

  /** `current` is the length of the unbroken run that ends on the last active day. */
  ghost predicate IsCurrentStreak(days: seq<nat>, current: nat) {
    days != [] && IsRun(days, days[|days| - 1], current) && !ActiveOn(days, days[|days| - 1] - current)
  }

  /** `longest` is the length of the longest unbroken run anywhere in the history. */
  ghost predicate IsLongestStreak(days: seq<nat>, longest: nat) {
    && (exists day: int :: IsRun(days, day, longest))
    && (forall day: int, n: nat :: IsRun(days, day, n) ==> n <= longest)
  }

  /** Both lengths are determined by the history. */
  lemma StreaksAreUnique(days: seq<nat>, a: nat, b: nat)
    ensures IsCurrentStreak(days, a) && IsCurrentStreak(days, b) ==> a == b
    ensures IsLongestStreak(days, a) && IsLongestStreak(days, b) ==> a == b
  {
    if IsCurrentStreak(days, a) && IsCurrentStreak(days, b) {
      var last := days[|days| - 1];
      assert !ActiveOn(days, last - a) && !ActiveOn(days, last - b);
    }
    if IsLongestStreak(days, a) && IsLongestStreak(days, b) {
      var d: int :| IsRun(days, d, a);
      var e: int :| IsRun(days, e, b);
    }
  }

  // ---------------------------------------------------------------- one more active day

  ghost predicate Refines(days: seq<nat>, c: Counters) {
    if days == [] then c == Counters(0, 0)
    else IsCurrentStreak(days, c.current) && IsLongestStreak(days, c.longest)
  }

  lemma ActiveAppended(days: seq<nat>, today: nat, day: int)
    ensures ActiveOn(days + [today], day) <==> ActiveOn(days, day) || day == today
  {
    var all := days + [today];
    assert all[|days|] == today && forall k :: 0 <= k < |days| ==> all[k] == days[k];
    if ActiveOn(days, day) {
      var k :| 0 <= k < |days| && days[k] == day;
      assert all[k] == day;
    }
  }

  lemma NothingAfterLast(days: seq<nat>, day: int)
    requires Chronological(days) && days != [] && day > days[|days| - 1]
    ensures !ActiveOn(days, day)
  {
  }

  /** The counters keep meaning the same when a day not earlier than the last is added. */
  lemma AdvanceKeepsCurrent(days: seq<nat>, c: Counters, today: nat)
    requires Chronological(days) && Refines(days, c)
    requires days != [] ==> days[|days| - 1] <= today
    ensures IsCurrentStreak(days + [today], Advance(c, days == [], today - (if days == [] then 0 else days[|days| - 1])).current)
  {
    var all := days + [today];
    var n := Advance(c, days == [], today - (if days == [] then 0 else days[|days| - 1])).current;
    assert all[|all| - 1] == today;
    forall day: int ensures ActiveOn(all, day) <==> ActiveOn(days, day) || day == today {
      ActiveAppended(days, today, day);
    }
    if days != [] {
      var last := days[|days| - 1];
      if last + 1 < today { NothingAfterLast(days, today - 1); }
      assert ActiveOn(days, last) by { assert days[|days| - 1] == last; }
      assert last == today ==> n == c.current;
    }
  }

  /** A run through the new day is no longer than the new current streak; any other run was there before. */
  lemma RunsAfterAppend(days: seq<nat>, today: nat, current: nat, day: int, n: nat)
    requires Chronological(days) && (days != [] ==> days[|days| - 1] <= today)
    requires IsCurrentStreak(days + [today], current) && IsRun(days + [today], day, n)
    ensures n <= current || IsRun(days, day, n)
  {
    var all := days + [today];
    assert all[|all| - 1] == today;
    forall d: int ensures ActiveOn(all, d) <==> ActiveOn(days, d) || d == today {
      ActiveAppended(days, today, d);
    }
    if n > 0 && !IsRun(days, day, n) {
      var d: int :| day - n < d <= day && !ActiveOn(days, d);
      assert ActiveOn(all, d) && d == today;
      assert ActiveOn(all, day);
      assert day == today by {
        if days != [] && day > today { NothingAfterLast(days, day); }
      }
      assert !ActiveOn(all, today - current);
    }
  }

  lemma AdvanceKeepsLongest(days: seq<nat>, c: Counters, today: nat)
    requires Chronological(days) && Refines(days, c)
    requires days != [] ==> days[|days| - 1] <= today
    ensures IsLongestStreak(days + [today], Advance(c, days == [], today - (if days == [] then 0 else days[|days| - 1])).longest)
  {
    var all := days + [today];
    var c' := Advance(c, days == [], today - (if days == [] then 0 else days[|days| - 1]));
    AdvanceKeepsCurrent(days, c, today);
    assert all[|all| - 1] == today;
    forall day: int, n: nat | IsRun(all, day, n) ensures n <= c'.longest {
      RunsAfterAppend(days, today, c'.current, day, n);
      assert days == [] ==> !ActiveOn(days, day);
    }
    if c'.longest == c'.current {
      assert IsRun(all, today, c'.longest);
    } else {
      var day: int :| IsRun(days, day, c.longest);
      forall d: int | day - c'.longest < d <= day ensures ActiveOn(all, d) {
        ActiveAppended(days, today, d);
      }
      assert IsRun(all, day, c'.longest);
    }
  }

  lemma AdvanceRefines(days: seq<nat>, c: Counters, today: nat)
    requires Chronological(days) && Refines(days, c)
    requires days != [] ==> days[|days| - 1] <= today
    ensures Refines(days + [today], Advance(c, days == [], today - (if days == [] then 0 else days[|days| - 1])))
  {
    AdvanceKeepsCurrent(days, c, today);
    AdvanceKeepsLongest(days, c, today);
  }

  // ---------------------------------------------------------------- whole histories

  /** The clock readings of one submission: the day used for the comparison, and the day stored in updatedAt. */
  datatype Reading = Reading(today: nat, stored: nat)

  function Replay(readings: seq<Reading>): Counters {
    if readings == [] then Counters(0, 0)
    else
      var before := readings[..|readings| - 1];
      Advance(Replay(before), before == [],
              readings[|readings| - 1].today - (if before == [] then 0 else before[|before| - 1].stored))
  }

  function Days(readings: seq<Reading>): seq<nat> {
    seq(|readings|, i requires 0 <= i < |readings| => readings[i].today)
  }

  /** Within a submission and from one to the next the clock does not run backwards. */
  predicate ClockForward(readings: seq<Reading>) {
    && (forall i :: 0 <= i < |readings| ==> readings[i].today <= readings[i].stored)
    && (forall i :: 0 <= i < |readings| - 1 ==> readings[i].stored <= readings[i + 1].today)
  }

  lemma {:induction false} ClockForwardDays(readings: seq<Reading>, i: nat, j: nat)
    requires ClockForward(readings) && i < j < |readings|
    ensures readings[i].stored <= readings[j].today
    decreases j - i
  {
    if i + 1 < j { ClockForwardDays(readings, i + 1, j); }
  }

  /**
   A submission counted on day `last` whose updatedAt fell on `stored` does no harm to the next one, on day
   `today`: it crossed no midnight, or the next one restarts the streak anyway, or has nothing to lose.
   */
  predicate Harmless(last: nat, stored: nat, current: nat, today: nat) {
    stored == last || today >= stored + 2 || (stored == today && today >= last + 2 && current == 1)
  }

  /** One step, exactly. */
  lemma CrossingMidnightHarmlessIff(days: seq<nat>, c: Counters, stored: nat, today: nat)
    requires Chronological(days) && days != [] && Refines(days, c)
    requires days[|days| - 1] <= stored <= today
    ensures Refines(days + [today], Advance(c, false, today - stored)) <==> Harmless(days[|days| - 1], stored, c.current, today)
  {
    var last := days[|days| - 1];
    var right, got := Advance(c, false, today - last), Advance(c, false, today - stored);
    AdvanceRefines(days, c, today);
    StreaksAreUnique(days + [today], right.current, got.current);
    RefinesParts(days, c);
    RefinesParts(days + [today], got);
    RefinesParts(days + [today], right);
    assert c.current > 0 by { assert ActiveOn(days, last); }
    hide Refines, IsLongestStreak, IsCurrentStreak;
  }

  lemma RefinesParts(days: seq<nat>, c: Counters)
    requires days != []
    ensures Refines(days, c) <==> IsCurrentStreak(days, c.current) && IsLongestStreak(days, c.longest)
  {
  }

  predicate HarmlessAt(readings: seq<Reading>, i: nat)
    requires i + 1 < |readings|
  {
    Harmless(readings[i].today, readings[i].stored, Replay(readings[..i + 1]).current, readings[i + 1].today)
  }

  ghost predicate RightAfter(readings: seq<Reading>, n: nat)
    requires n <= |readings|
  {
    Refines(Days(readings[..n]), Replay(readings[..n]))
  }

  lemma NextRightIff(readings: seq<Reading>, n: nat)
    requires ClockForward(readings) && n < |readings| && RightAfter(readings, n)
    ensures RightAfter(readings, n + 1) <==> n == 0 || HarmlessAt(readings, n - 1)
  {
    var before, last := readings[..n], readings[n];
    var more := readings[..n + 1];
    assert more[..n] == before && more[n] == last;
    assert Days(more) == Days(before) + [last.today];
    forall i, j | 0 <= i < j < n ensures Days(before)[i] <= Days(before)[j] {
      ClockForwardDays(readings, i, j);
    }
    if n == 0 {
      AdvanceRefines(Days(before), Replay(before), last.today);
    } else {
      assert Days(before)[n - 1] == readings[n - 1].today && before[n - 1] == readings[n - 1];
      CrossingMidnightHarmlessIff(Days(before), Replay(before), readings[n - 1].stored, last.today);
    }
    hide Refines, Advance, Harmless;
  }

  /**
   Over every history whose clock does not run backwards: after each submission the counters are the streaks
   of the definition if and only if every crossing of midnight was harmless to the submission after it.
   */
  lemma {:induction false} CountersAreStreaksIff(readings: seq<Reading>)
    requires ClockForward(readings)
    ensures (forall n :: 0 <= n <= |readings| ==> RightAfter(readings, n))
            <==> (forall i :: 0 <= i < |readings| - 1 ==> HarmlessAt(readings, i))
  {
    if forall i :: 0 <= i < |readings| - 1 ==> HarmlessAt(readings, i) {
      AllRight(readings, |readings|);
    }
    if forall n :: 0 <= n <= |readings| ==> RightAfter(readings, n) {
      forall i | 0 <= i < |readings| - 1 ensures HarmlessAt(readings, i) {
        NextRightIff(readings, i + 1);
      }
    }
  }

  lemma {:induction false} AllRight(readings: seq<Reading>, n: nat)
    requires ClockForward(readings) && n <= |readings|
    requires forall i :: 0 <= i < |readings| - 1 ==> HarmlessAt(readings, i)
    ensures forall k :: 0 <= k <= n ==> RightAfter(readings, k)
  {
    if n == 0 {
      assert readings[..0] == [];
    } else {
      AllRight(readings, n - 1);
      NextRightIff(readings, n - 1);
    }
  }

  /** When no submission takes longer than to the next day, the condition speaks of days only. */
  lemma OneMidnightHarmlessIff(readings: seq<Reading>)
    requires ClockForward(readings)
    requires forall i :: 0 <= i < |readings| ==> readings[i].stored <= readings[i].today + 1
    ensures (forall i :: 0 <= i < |readings| - 1 ==> HarmlessAt(readings, i))
            <==> (forall i :: 0 <= i < |readings| - 1 ==> readings[i].stored == readings[i].today || readings[i + 1].today >= readings[i].today + 3)
  {
    forall i | 0 <= i < |readings| - 1
      ensures HarmlessAt(readings, i) <==> readings[i].stored == readings[i].today || readings[i + 1].today >= readings[i].today + 3
    {
    }
  }

  /** Over every history of submissions that do not cross midnight, the counters are the streaks of the definition. */
  lemma CountersAreStreaks(readings: seq<Reading>)
    requires Chronological(Days(readings)) && forall i :: 0 <= i < |readings| ==> readings[i].stored == readings[i].today
    ensures Refines(Days(readings), Replay(readings))
  {
    hide Refines, Replay, Days, HarmlessAt, RightAfter;
    forall i | 0 <= i < |readings| - 1 ensures readings[i].stored <= readings[i + 1].today && HarmlessAt(readings, i) {
      ConsecutiveDays(readings, i);
    }
    AllRight(readings, |readings|);
    RightAtEnd(readings);
  }

  lemma ConsecutiveDays(readings: seq<Reading>, i: nat)
    requires Chronological(Days(readings)) && i + 1 < |readings|
    ensures readings[i].today <= readings[i + 1].today
    ensures readings[i].stored == readings[i].today ==> HarmlessAt(readings, i)
  {
    assert Days(readings)[i] <= Days(readings)[i + 1];
  }

  lemma RightAtEnd(readings: seq<Reading>)
    ensures RightAfter(readings, |readings|) <==> Refines(Days(readings), Replay(readings))
  {
    assert readings[..|readings|] == readings;
  }

  /** A submission that begins on day 5 and stores on day 6 makes the next day's submission look like the same day. */
  lemma MidnightLosesADay()
    ensures var readings := [Reading(5, 6), Reading(6, 6)];
            Replay(readings) == Counters(1, 1) && IsCurrentStreak(Days(readings), 2)
  {
    var readings := [Reading(5, 6), Reading(6, 6)];
    assert readings[..1] == [Reading(5, 6)] && [Reading(5, 6)][..0] == [];
    assert Replay([Reading(5, 6)]) == Counters(1, 1);
    var days := Days(readings);
    assert days == [5, 6];
    assert days[0] == 5 && days[1] == 6;
    assert ActiveOn(days, 6) && ActiveOn(days, 5) && !ActiveOn(days, 4);
  }
}
