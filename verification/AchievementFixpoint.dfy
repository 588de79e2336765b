/**
 checkAchievements works on a snapshot of the stats taken before it grants anything, although each grant
 adds XP that may meet further conditions. Repeating the call closes that gap: the conditions are
 thresholds, so the earned set climbs to a least fixed point.
 */
module AchievementFixpoint {
  import opened Prelude
  import opened Learning

  /** `n` calls in a row with no attempt between them. */
  function CheckRepeatedly(w: World, u: UserId, now: nat, n: nat): World {
    if n == 0 then w else CheckAchievements(CheckRepeatedly(w, u, now, n - 1), u, now)
  }

  /** The stats as they would be had exactly the achievements `ids` been earned. */
  function StatsHaving(achievements: seq<Achievement>, base: Stats, already: set<AchievementId>, ids: set<AchievementId>): Stats {
    var xp := base.totalXp + RewardSum(achievements, ids - already);
    base.(totalXp := xp, level := Level(xp))
  }

  /** `ids` holds what was earned before and every achievement whose condition holds once `ids` is earned. */
  ghost predicate Closed(achievements: seq<Achievement>, base: Stats, already: set<AchievementId>, ids: set<AchievementId>) {
    && already <= ids
    && forall a :: a in achievements && Met(a.condition, StatsHaving(achievements, base, already, ids)) ==> a.id in ids
  }

  /** The two stats agree on everything a condition can look at. */
  predicate SameProgress(a: Stats, b: Stats) {
    a == b.(updatedAt := a.updatedAt)
  }

  lemma LevelMonotone(a: nat, b: nat)
    requires a <= b
    ensures Level(a) <= Level(b)
  {
  }

  /** Thresholds are monotone: earning more meets at least as many conditions. */
  lemma MetMonotone(achievements: seq<Achievement>, base: Stats, already: set<AchievementId>, a: set<AchievementId>, b: set<AchievementId>, c: Condition)
    requires a <= b && Met(c, StatsHaving(achievements, base, already, a))
    ensures Met(c, StatsHaving(achievements, base, already, b))
  {
    RewardSumMonotone(achievements, a - already, b - already);
    LevelMonotone(base.totalXp + RewardSum(achievements, a - already), base.totalXp + RewardSum(achievements, b - already));
  }

  /** One call grants exactly the unearned achievements met on the snapshot, and pays exactly their rewards. */
  lemma OneCallGrantsSnapshot(w: World, u: UserId, now: nat, base: Stats, already: set<AchievementId>)
    requires u in w.stats && already <= EarnedBy(w.earned, u)
    requires SameProgress(w.stats[u], StatsHaving(w.achievements, base, already, EarnedBy(w.earned, u)))
    ensures var w' := CheckAchievements(w, u, now);
            var before, after := EarnedBy(w.earned, u), EarnedBy(w'.earned, u);
            && (forall x :: x in after <==> x in before || exists a :: a in w.achievements && a.id == x && Met(a.condition, w.stats[u]))
            && u in w'.stats && SameProgress(w'.stats[u], StatsHaving(w.achievements, base, already, after))
            && w'.achievements == w.achievements
  {
    var granted := Granted(w.achievements, EarnedBy(w.earned, u), w.stats[u]);
    var before := EarnedBy(w.earned, u);
    EarnedAfterGrant(w.earned, u, granted);
    assert EarnedBy(CheckAchievements(w, u, now).earned, u) == before + granted;
    RewardSumUnion(w.achievements, before - already, granted);
    assert (before - already) + granted == (before + granted) - already;
    forall x | x in before || exists a :: a in w.achievements && a.id == x && Met(a.condition, w.stats[u])
      ensures x in before + granted
    {
    }
  }

  lemma MetIgnoresDate(c: Condition, a: Stats, b: Stats)
    requires SameProgress(a, b)
    ensures Met(c, a) <==> Met(c, b)
  {
  }

  /** What holds after each number of calls. */
  lemma {:induction false} RepeatInvariant(w: World, u: UserId, now: nat, n: nat)
    requires u in w.stats && w.stats[u].level == Level(w.stats[u].totalXp)
    ensures var already := EarnedBy(w.earned, u);
            var wn := CheckRepeatedly(w, u, now, n);
            && wn.achievements == w.achievements && already <= EarnedBy(wn.earned, u)
            && u in wn.stats && SameProgress(wn.stats[u], StatsHaving(w.achievements, w.stats[u], already, EarnedBy(wn.earned, u)))
  {
    var already := EarnedBy(w.earned, u);
    if n == 0 {
      assert already - already == {};
      RewardSumEmpty(w.achievements);
    } else {
      RepeatInvariant(w, u, now, n - 1);
      OneCallGrantsSnapshot(CheckRepeatedly(w, u, now, n - 1), u, now, w.stats[u], already);
    }
  }

  /** However often the check runs, it never earns more than any closed set: it stays below the least fixed point. */
  lemma {:induction false} StaysBelowEveryClosedSet(w: World, u: UserId, now: nat, n: nat, ids: set<AchievementId>)
    requires u in w.stats && w.stats[u].level == Level(w.stats[u].totalXp)
    requires Closed(w.achievements, w.stats[u], EarnedBy(w.earned, u), ids)
    ensures EarnedBy(CheckRepeatedly(w, u, now, n).earned, u) <= ids
  {
    hide CheckAchievements, CheckRepeatedly, EarnedBy, StatsHaving, Met;
    LastCall(w, u, now, n);
    if n > 0 {
      var already, base := EarnedBy(w.earned, u), w.stats[u];
      var v := CheckRepeatedly(w, u, now, n - 1);
      RepeatInvariant(w, u, now, n - 1);
      StaysBelowEveryClosedSet(w, u, now, n - 1, ids);
      OneCallGrantsSnapshot(v, u, now, base, already);
      forall x | x in EarnedBy(CheckAchievements(v, u, now).earned, u) ensures x in ids {
        if x !in EarnedBy(v.earned, u) {
          var a :| a in w.achievements && a.id == x && Met(a.condition, v.stats[u]);
          MetIgnoresDate(a.condition, v.stats[u], StatsHaving(w.achievements, base, already, EarnedBy(v.earned, u)));
          MetMonotone(w.achievements, base, already, EarnedBy(v.earned, u), ids, a.condition);
        }
      }
    }
  }

  function Ids(achievements: seq<Achievement>): set<AchievementId> {
    set a | a in achievements :: a.id
  }

  lemma {:induction false} FewIds(achievements: seq<Achievement>)
    ensures |Ids(achievements)| <= |achievements|
  {
    if achievements != [] {
      var front := achievements[..|achievements| - 1];
      FewIds(front);
      assert Ids(achievements) == Ids(front) + {achievements[|achievements| - 1].id};
    }
  }

  lemma SubsetSize(a: set<AchievementId>, b: set<AchievementId>)
    requires a <= b
    ensures |a| <= |b| && (a != b ==> |a| < |b|)
  {
    assert b == a + (b - a);
    assert a != b ==> b - a != {};
  }

  /** A call that grants nothing leaves every table as it is, and means the earned set is closed. */
  lemma QuietCallMeansClosed(w: World, u: UserId, now: nat, base: Stats, already: set<AchievementId>)
    requires u in w.stats && already <= EarnedBy(w.earned, u)
    requires SameProgress(w.stats[u], StatsHaving(w.achievements, base, already, EarnedBy(w.earned, u)))
    requires EarnedBy(CheckAchievements(w, u, now).earned, u) == EarnedBy(w.earned, u)
    ensures CheckAchievements(w, u, now) == w
    ensures Closed(w.achievements, base, already, EarnedBy(w.earned, u))
  {
    var granted := Granted(w.achievements, EarnedBy(w.earned, u), w.stats[u]);
    EarnedAfterGrant(w.earned, u, granted);
    GrantedAreNew(w.achievements, EarnedBy(w.earned, u), w.stats[u]);
    assert granted <= EarnedBy(CheckAchievements(w, u, now).earned, u);
    assert granted == {};
    RewardSumEmpty(w.achievements);
    assert (set a | a in granted :: (u, a)) == {};
    assert CheckAchievements(w, u, now) == w;
    forall a | a in w.achievements && Met(a.condition, StatsHaving(w.achievements, base, already, EarnedBy(w.earned, u)))
      ensures a.id in EarnedBy(w.earned, u)
    {
      MetIgnoresDate(a.condition, w.stats[u], StatsHaving(w.achievements, base, already, EarnedBy(w.earned, u)));
      assert a.id in EarnedBy(w.earned, u) || a.id in granted;
    }
  }

  function Unearned(w: World, u: UserId): (ids: set<AchievementId>)
    ensures ids <= Ids(w.achievements)
  {
    Ids(w.achievements) - EarnedBy(w.earned, u)
  }

  /** A call that grants something leaves strictly fewer achievements unearned. */
  lemma GrantShrinksUnearned(w: World, u: UserId, now: nat)
    requires u in w.stats
    ensures EarnedBy(CheckAchievements(w, u, now).earned, u) != EarnedBy(w.earned, u) ==>
              |Unearned(CheckAchievements(w, u, now), u)| < |Unearned(w, u)|
  {
    var granted := Granted(w.achievements, EarnedBy(w.earned, u), w.stats[u]);
    EarnedAfterGrant(w.earned, u, granted);
    GrantedAreNew(w.achievements, EarnedBy(w.earned, u), w.stats[u]);
    if granted != {} {
      var x :| x in granted;
      assert x in Unearned(w, u) && x !in Unearned(CheckAchievements(w, u, now), u);
      SubsetSize(Unearned(CheckAchievements(w, u, now), u), Unearned(w, u));
    }
  }

  /** Each call either grants something new or has reached the end. */
  lemma {:induction false} EachCallProgresses(w: World, u: UserId, now: nat, n: nat)
    requires u in w.stats && w.stats[u].level == Level(w.stats[u].totalXp)
    ensures var wn := CheckRepeatedly(w, u, now, n);
            CheckAchievements(wn, u, now) == wn || |Unearned(CheckAchievements(wn, u, now), u)| + n + 1 <= |Ids(w.achievements)|
  {
    hide *;
    var wn := CheckRepeatedly(w, u, now, n);
    RepeatInvariant(w, u, now, n);
    GrantShrinksUnearned(wn, u, now);
    LastCall(w, u, now, n);
    if EarnedBy(CheckAchievements(wn, u, now).earned, u) == EarnedBy(wn.earned, u) {
      QuietCallMeansClosed(wn, u, now, w.stats[u], EarnedBy(w.earned, u));
    } else if n == 0 {
      SubsetSize(Unearned(w, u), Ids(w.achievements));
    } else {
      EachCallProgresses(w, u, now, n - 1);
    }
  }

  lemma LastCall(w: World, u: UserId, now: nat, n: nat)
    ensures n == 0 ==> CheckRepeatedly(w, u, now, n) == w
    ensures n > 0 ==> CheckRepeatedly(w, u, now, n) == CheckAchievements(CheckRepeatedly(w, u, now, n - 1), u, now)
  {
  }

  /**
   After at most one call per achievement the check changes nothing any more, and the earned set is then
   the least closed one: it is closed, and every closed set contains it.
   */
  lemma ReachesLeastFixedPoint(w: World, u: UserId, now: nat, n: nat)
    requires u in w.stats && w.stats[u].level == Level(w.stats[u].totalXp) && n >= |w.achievements|
    ensures var wn := CheckRepeatedly(w, u, now, n);
            var earned := EarnedBy(wn.earned, u);
            && CheckAchievements(wn, u, now) == wn
            && Closed(w.achievements, w.stats[u], EarnedBy(w.earned, u), earned)
            && forall ids :: Closed(w.achievements, w.stats[u], EarnedBy(w.earned, u), ids) ==> earned <= ids
  {
    var already := EarnedBy(w.earned, u);
    var wn := CheckRepeatedly(w, u, now, n);
    RepeatInvariant(w, u, now, n);
    EachCallProgresses(w, u, now, n);
    FewIds(w.achievements);
    QuietCallMeansClosed(wn, u, now, w.stats[u], already);
    forall ids | Closed(w.achievements, w.stats[u], already, ids) ensures EarnedBy(wn.earned, u) <= ids {
      StaysBelowEveryClosedSet(w, u, now, n, ids);
    }
  }

  /** The snapshot with the rewards paid that one call grants on it. */
  function Paid(w: World, u: UserId): Stats
    requires u in w.stats
  {
    var granted := Granted(w.achievements, EarnedBy(w.earned, u), w.stats[u]);
    var xp := w.stats[u].totalXp + RewardSum(w.achievements, granted);
    w.stats[u].(totalXp := xp, level := Level(xp))
  }

  lemma OneCallPays(w: World, u: UserId, now: nat)
    requires u in w.stats && w.stats[u].level == Level(w.stats[u].totalXp)
    ensures var w1 := CheckAchievements(w, u, now);
            && u in w1.stats && SameProgress(w1.stats[u], Paid(w, u)) && w1.stats[u].level == Level(w1.stats[u].totalXp)
            && w1.achievements == w.achievements
            && EarnedBy(w1.earned, u) == EarnedBy(w.earned, u) + Granted(w.achievements, EarnedBy(w.earned, u), w.stats[u])
  {
    EarnedAfterGrant(w.earned, u, Granted(w.achievements, EarnedBy(w.earned, u), w.stats[u]));
  }

  /** Repeating a call changes nothing exactly when it has nothing to grant. */
  lemma QuietIffNothingGranted(w: World, u: UserId, now: nat)
    requires u in w.stats
    ensures CheckAchievements(w, u, now) == w <==> Granted(w.achievements, EarnedBy(w.earned, u), w.stats[u]) == {}
  {
    var granted := Granted(w.achievements, EarnedBy(w.earned, u), w.stats[u]);
    EarnedAfterGrant(w.earned, u, granted);
    GrantedAreNew(w.achievements, EarnedBy(w.earned, u), w.stats[u]);
    if granted == {} {
      RewardSumEmpty(w.achievements);
      assert (set a | a in granted :: (u, a)) == {};
    }
  }

  /**
   Exactly when one call is enough: every condition that its rewards bring the user to meet belongs to an
   achievement that was earned before or met on the snapshot already. The right side looks at the world before
   the call only.
   */
  lemma OneCallSufficesIff(w: World, u: UserId, now: nat, later: nat)
    requires u in w.stats && w.stats[u].level == Level(w.stats[u].totalXp)
    ensures var w1 := CheckAchievements(w, u, now);
            CheckAchievements(w1, u, later) == w1 <==>
              forall a :: a in w.achievements && Met(a.condition, Paid(w, u)) ==>
                a.id in EarnedBy(w.earned, u) || exists b :: b in w.achievements && b.id == a.id && Met(b.condition, w.stats[u])
  {
    var w1 := CheckAchievements(w, u, now);
    var earned := EarnedBy(w1.earned, u);
    OneCallPays(w, u, now);
    QuietIffNothingGranted(w1, u, later);
    forall a | a in w.achievements ensures Met(a.condition, w1.stats[u]) <==> Met(a.condition, Paid(w, u)) {
      MetIgnoresDate(a.condition, w1.stats[u], Paid(w, u));
    }
    hide CheckAchievements, Paid, Met, EarnedBy;
    forall a | a in w.achievements
      ensures a.id in earned <==>
                a.id in EarnedBy(w.earned, u) || exists b :: b in w.achievements && b.id == a.id && Met(b.condition, w.stats[u])
    {
    }
    var more := Granted(w.achievements, earned, w1.stats[u]);
    assert more == {} <==> forall a :: a in w.achievements && Met(a.condition, Paid(w, u)) ==> a.id in earned by {
      if a :| a in w.achievements && Met(a.condition, Paid(w, u)) && a.id !in earned {
        assert a.id in more;
      }
    }
  }

  /** One call is not enough in general: the reward of one grant can meet the next condition. */
  lemma OneCallMayNotSuffice()
    ensures var first := Achievement(1, Condition(Some(1), None, None, None), 100);
            var second := Achievement(2, Condition(None, None, Some(2), None), 0);
            var w := EMPTY.(achievements := [first, second], stats := map[7 := Stats(10, 1, 1, 1, 1, 0, 0)]);
            && EarnedBy(CheckRepeatedly(w, 7, 0, 1).earned, 7) == {1}
            && EarnedBy(CheckRepeatedly(w, 7, 0, 2).earned, 7) == {1, 2}
  {
    var first := Achievement(1, Condition(Some(1), None, None, None), 100);
    var second := Achievement(2, Condition(None, None, Some(2), None), 0);
    var all := [first, second];
    var st := Stats(10, 1, 1, 1, 1, 0, 0);
    var w := EMPTY.(achievements := all, stats := map[7 := st]);
    assert first in all && second in all;
    assert all[..1] == [first] && [first][..0] == [];
    assert EarnedBy(w.earned, 7) == {};
    assert Granted(all, {}, st) == {1};
    EarnedAfterGrant({}, 7, {1});
    var w1 := CheckAchievements(w, 7, 0);
    assert CheckRepeatedly(w, 7, 0, 0) == w && CheckRepeatedly(w, 7, 0, 1) == w1;
    assert EarnedBy(w1.earned, 7) == {1};
    assert RewardSum([first], {1}) == 100 && RewardSum(all, {1}) == 100;
    assert w1.stats[7].level == 2;
    assert Granted(all, {1}, w1.stats[7]) == {2};
    EarnedAfterGrant(w1.earned, 7, {2});
    assert CheckRepeatedly(w, 7, 0, 2) == CheckAchievements(w1, 7, 0);
  }
}
