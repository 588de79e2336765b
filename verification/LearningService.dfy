/**
 AttemptService, ProblemService, ProgressService and AchievementService over one database and one Redis
 cache, as an object whose tables and cache entries are updated in the source's order. Submissions run to
 completion. Each method is tied to the table functions of module Learning, and every live cache entry
 stays equal to the row it was read from, which is what makes reading stats through the cache and writing
 them back safe.
 */
module LearningService {
  import opened Prelude
  import opened Redis
  import opened Learning
  import opened Streak

  const PROBLEM_TTL: nat := 3600
  const USER_PROGRESS_TTL: nat := 1800
  const USER_STATS_TTL: nat := 1800
  const USER_ACHIEVEMENTS_TTL: nat := 3600

  datatype Error = NotFound

  class LearningService {
    var problems: map<ProblemId, Problem>
    var attempts: seq<Attempt>
    var progress: map<(UserId, TopicId), Progress>
    var stats: map<UserId, Stats>
    var achievements: seq<Achievement>
    var earned: set<(UserId, AchievementId)>
    ghost var history: seq<Event>

    var problemCache: Store<ProblemId, Problem>
    var progressCache: Store<(UserId, TopicId), Progress>
    var statsCache: Store<UserId, Stats>
    var earnedCache: Store<UserId, set<AchievementId>>
    var now: nat    // Redis time, in seconds

    ghost function View(): World
      reads this
    {
      World(problems, attempts, progress, stats, achievements, earned, history)
    }

    ghost predicate CachesCoherent()
      reads this`problems, this`progress, this`stats, this`earned
      reads this`problemCache, this`progressCache, this`statsCache, this`earnedCache, this`now
    {
      && (forall p :: Live(problemCache, p, now) ==> p in problems && problems[p].deletedAt.None? && problemCache[p].value == problems[p])
      && (forall k :: Live(progressCache, k, now) ==> k in progress && progressCache[k].value == progress[k])
      && (forall u :: Live(statsCache, u, now) ==> u in stats && statsCache[u].value == stats[u])
      && (forall u :: Live(earnedCache, u, now) ==> earnedCache[u].value == EarnedBy(earned, u))
    }

    ghost predicate Valid()
      reads this
    {
      CachesCoherent() && Inv(View())
    }

    constructor (start: nat)
      ensures Valid() && View() == EMPTY && now == start
    {
      problems, attempts, progress, stats, achievements, earned, history := map[], [], map[], map[], [], {}, [];
      problemCache, progressCache, statsCache, earnedCache, now := map[], map[], map[], map[], start;
      new;
      RunKeepsInvariant([]);
    }

    method Wait(seconds: nat)
      requires Valid()
      modifies this`now
      ensures Valid() && now == old(now) + seconds
    {
      now := now + seconds;
    }

    // -------------------------------------------------------------- ProblemService

    method FindProblem(p: ProblemId) returns (r: Result<Problem, Error>)
      requires CachesCoherent()
      modifies this`problemCache
      ensures CachesCoherent()
      ensures r == if ProblemVisible(View(), p) then Ok(problems[p]) else Err(NotFound)
      ensures r.Ok? && !Live(old(problemCache), p, now) ==> p in problemCache && problemCache[p].expiresAt == Some(now + 60 * 60)
    {
      var cached := Get(problemCache, p, now);
      if cached.Some? {
        return Ok(cached.value);
      }
      if p !in problems || problems[p].deletedAt.Some? {
        return Err(NotFound);
      }
      problemCache := SetEx(problemCache, p, problems[p], now, PROBLEM_TTL);
      return Ok(problems[p]);
    }

    /** problemRepository.updateStats, then the cache deletion. */
    method UpdateStatsOfProblem(p: ProblemId, solveCount: nat, correctRate: real)
      requires CachesCoherent() && p in problems
      modifies this`problems, this`problemCache
      ensures CachesCoherent()
      ensures problems == old(problems)[p := old(problems)[p].(solveCount := solveCount, correctRate := correctRate)]
    {
      problems := problems[p := problems[p].(solveCount := solveCount, correctRate := correctRate)];
      problemCache := problemCache - {p};
    }

    method CreateProblem(p: ProblemId, topicId: TopicId, kind: ProblemType, answer: Json, other: string)
      requires Valid() && p !in problems
      modifies this`problems
      ensures Valid() && View() == Apply(old(View()), Action.CreateProblem(p, topicId, kind, answer, other))
    {
      hide Inv, Learning.Submit, EnsureStats;
      StepPreserves(View(), Action.CreateProblem(p, topicId, kind, answer, other));
      problems := problems[p := Problem(topicId, kind, answer, other, 0, 0.0, None)];
    }

    method UpdateProblem(p: ProblemId, patch: ProblemPatch) returns (r: Result<Problem, Error>)
      requires Valid()
      modifies this`problems, this`problemCache
      ensures Valid() && View() == Apply(old(View()), Action.UpdateProblem(p, patch))
      ensures r == if ProblemVisible(old(View()), p) then Ok(PatchedProblem(old(problems)[p], patch)) else Err(NotFound)
      ensures r.Ok? ==> p in problems && r.value == problems[p] && ProblemTook(old(problems)[p], patch, problems[p])
    {
      hide Inv, Learning.Submit, EnsureStats;
      StepPreserves(View(), Action.UpdateProblem(p, patch));
      if p !in problems || problems[p].deletedAt.Some? {
        return Err(NotFound);
      }
      problems := problems[p := PatchedProblem(problems[p], patch)];
      problemCache := problemCache - {p};
      return Ok(problems[p]);
    }

    method DeleteProblem(p: ProblemId, at: nat) returns (r: Result<Problem, Error>)
      requires Valid()
      modifies this`problems, this`problemCache
      ensures Valid() && View() == Apply(old(View()), Action.DeleteProblem(p, at))
      ensures r == if ProblemVisible(old(View()), p) then Ok(old(problems)[p].(deletedAt := Some(at))) else Err(NotFound)
    {
      hide Inv, Learning.Submit, EnsureStats;
      StepPreserves(View(), Action.DeleteProblem(p, at));
      if p !in problems || problems[p].deletedAt.Some? {
        return Err(NotFound);
      }
      problems := problems[p := problems[p].(deletedAt := Some(at))];
      problemCache := problemCache - {p};
      return Ok(problems[p]);
    }

    // -------------------------------------------------------------- ProgressService

    method FindProgress(u: UserId, t: TopicId) returns (r: Result<Progress, Error>)
      requires CachesCoherent()
      modifies this`progressCache
      ensures CachesCoherent()
      ensures r == if (u, t) in progress then Ok(progress[(u, t)]) else Err(NotFound)
      ensures r.Ok? && !Live(old(progressCache), (u, t), now) ==>
                (u, t) in progressCache && progressCache[(u, t)].expiresAt == Some(now + 30 * 60)
    {
      var cached := Get(progressCache, (u, t), now);
      if cached.Some? {
        return Ok(cached.value);
      }
      if (u, t) !in progress {
        return Err(NotFound);
      }
      progressCache := SetEx(progressCache, (u, t), progress[(u, t)], now, USER_PROGRESS_TTL);
      return Ok(progress[(u, t)]);
    }

    method UpdateProgress(u: UserId, t: TopicId, isCorrect: bool)
      requires CachesCoherent()
      modifies this`progress, this`progressCache
      ensures CachesCoherent() && View() == Learning.UpdateProgress(old(View()), u, t, isCorrect)
    {
      var problemsSolved := 1;
      var correctCount := if isCorrect then 1 else 0;
      if (u, t) in progress {
        problemsSolved := progress[(u, t)].problemsSolved + 1;
        correctCount := progress[(u, t)].correctCount + (if isCorrect then 1 else 0);
      }
      var masteryLevel := correctCount as real / problemsSolved as real;
      progress := progress[(u, t) := Progress(problemsSolved, correctCount, masteryLevel)];
      progressCache := progressCache - {(u, t)};
    }

    // -------------------------------------------------------------- AchievementService

    method CreateAchievement(a: Achievement)
      requires Valid() && !Known(achievements, a.id)
      modifies this`achievements
      ensures Valid() && View() == Apply(old(View()), Action.CreateAchievement(a))
    {
      hide Inv, Learning.Submit, EnsureStats;
      StepPreserves(View(), Action.CreateAchievement(a));
      achievements := achievements + [a];
    }

    method FindUserAchievements(u: UserId) returns (ids: set<AchievementId>)
      requires CachesCoherent()
      modifies this`earnedCache
      ensures CachesCoherent() && ids == EarnedBy(earned, u)
      ensures !Live(old(earnedCache), u, now) ==> u in earnedCache && earnedCache[u].expiresAt == Some(now + 60 * 60)
    {
      var cached := Get(earnedCache, u, now);
      if cached.Some? {
        return cached.value;
      }
      ids := EarnedBy(earned, u);
      earnedCache := SetEx(earnedCache, u, ids, now, USER_ACHIEVEMENTS_TTL);
    }

    method FindStats(u: UserId, time: nat) returns (st: Stats)
      requires CachesCoherent()
      modifies this`stats, this`statsCache
      ensures CachesCoherent() && View() == EnsureStats(old(View()), u, time)
      ensures u in stats && st == stats[u]
      ensures !Live(old(statsCache), u, now) ==> u in statsCache && statsCache[u].expiresAt == Some(now + 30 * 60)
      ensures u !in old(stats) ==> st == Stats(0, 1, 0, 0, 0, 0, time)
    {
      var cached := Get(statsCache, u, now);
      if cached.Some? {
        return cached.value;
      }
      if u !in stats {
        stats := stats[u := NewStats(time)];
      }
      statsCache := SetEx(statsCache, u, stats[u], now, USER_STATS_TTL);
      return stats[u];
    }

    /** upsertStats, then the cache deletion. */
    method PutStats(u: UserId, st: Stats)
      requires CachesCoherent()
      modifies this`stats, this`statsCache
      ensures CachesCoherent() && stats == old(stats)[u := st]
    {
      stats := stats[u := st];
      statsCache := statsCache - {u};
    }

    /** The arithmetic of updateStatsAfterAttempt. */
    static method StatsAfter(st: Stats, isCorrect: Option<bool>, timeTaken: nat, clock: Clock) returns (next: Stats)
      ensures next == AfterAttempt(st, isCorrect, timeTaken, clock)
      ensures next.totalXp == st.totalXp + (if isCorrect == Some(true) then 10 else if isCorrect == Some(false) then 2 else 0)
      ensures next.level == next.totalXp / 100 + 1 && next.updatedAt == clock.wrote
      ensures next.totalProblemsSolved == st.totalProblemsSolved + 1 && next.totalStudyTime == st.totalStudyTime + timeTaken
    {
      hide DayOf;
      var xpGain := 0;
      if isCorrect == Some(true) {
        xpGain := 10;
      } else if isCorrect == Some(false) {
        xpGain := 2;
      }
      var newTotalXp := st.totalXp + xpGain;
      var newLevel := newTotalXp / 100 + 1;
      var newCurrentStreak, newLongestStreak := st.currentStreak, st.longestStreak;
      var dayDiff := DayOf(clock.today) - DayOf(st.updatedAt);
      if st.totalProblemsSolved == 0 {
        newCurrentStreak := 1;
      } else if dayDiff == 1 {
        newCurrentStreak := st.currentStreak + 1;
      } else if dayDiff > 1 {
        newCurrentStreak := 1;
      }
      if newCurrentStreak > newLongestStreak {
        newLongestStreak := newCurrentStreak;
      }
      TwoGrades(isCorrect);
      next := Stats(newTotalXp, newLevel, newCurrentStreak, newLongestStreak,
                    st.totalProblemsSolved + 1, st.totalStudyTime + timeTaken, clock.wrote);
    }

    method UpdateStatsAfterAttempt(u: UserId, isCorrect: Option<bool>, timeTaken: nat, clock: Clock)
      requires CachesCoherent()
      modifies this`stats, this`statsCache
      ensures CachesCoherent() && View() == UpdateStats(old(View()), u, isCorrect, timeTaken, clock)
    {
      hide EarnedBy, CachesCoherent, AfterAttempt;
      var st := FindStats(u, clock.today);
      var next := StatsAfter(st, isCorrect, timeTaken, clock);
      PutStats(u, next);
    }

    method Fulfilled(c: Condition, st: Stats) returns (met: bool)
      ensures met <==> Met(c, st)
      ensures met <==>
                && (c.totalProblemsSolved.Some? ==> c.totalProblemsSolved.value <= st.totalProblemsSolved)
                && (c.currentStreak.Some? ==> c.currentStreak.value <= st.currentStreak)
                && (c.level.Some? ==> c.level.value <= st.level)
                && (c.totalXp.Some? ==> c.totalXp.value <= st.totalXp)
    {
      met := true;
      if c.totalProblemsSolved.Some? {
        if st.totalProblemsSolved < c.totalProblemsSolved.value { met := false; }
      }
      if c.currentStreak.Some? {
        if st.currentStreak < c.currentStreak.value { met := false; }
      }
      if c.level.Some? {
        if st.level < c.level.value { met := false; }
      }
      if c.totalXp.Some? {
        if st.totalXp < c.totalXp.value { met := false; }
      }
    }

    /**
     The loop over all achievements: earned ids and stats were read once before it; each grant re-reads the
     row to add its reward. A duplicate insert cannot happen.
     */
    method CheckAchievements(u: UserId, time: nat)
      requires CachesCoherent() && DistinctIds(achievements)
      modifies this`earned, this`stats, this`statsCache, this`earnedCache
      ensures CachesCoherent() && View() == Learning.CheckAchievements(old(View()), u, time)
      ensures var st := if u in old(stats) then old(stats)[u] else NewStats(time);
              forall v: UserId, x: AchievementId :: (v, x) in earned <==>
                (v, x) in old(earned) || (v == u && exists a :: a in achievements && Reaches(a, x, st))
    {
      EarnsExactly(View(), u, time);
      hide CachesCoherent, Granted, RewardSum, EarnedBy, Met, AfterLoop, Reaches;
      var all, earnedIds := achievements, EarnedBy(earned, u);
      var snapshot := FindStats(u, time);
      ghost var before := earned;
      ghost var others := stats;
      LoopStarts(all, earnedIds, snapshot, before, others, u, time);
      for i := 0 to |all|
        invariant CachesCoherent() && achievements == all && u in stats
        invariant (earned, stats) == AfterLoop(all[..i], earnedIds, snapshot, before, others, u, time)
      {
        var achievement := all[i];
        var met := false;
        if achievement.id !in earnedIds {
          met := Fulfilled(achievement.condition, snapshot);
        }
        LoopStep(all, i, earnedIds, snapshot, before, others, u, time);
        if met {
          Grant(u, achievement, time);    // the unique index on (userId, achievementId) is respected
        }
      }
      assert all[..|all|] == all;
      LoopEnds(all, earnedIds, snapshot, before, others, u, time);
    }

    method Grant(u: UserId, a: Achievement, time: nat)
      requires CachesCoherent() && u in stats && (u, a.id) !in earned
      modifies this`earned, this`stats, this`statsCache, this`earnedCache
      ensures CachesCoherent() && earned == old(earned) + {(u, a.id)}
      ensures stats == old(stats)[u := Rewarded(old(stats)[u], Reward(a), time)]
      ensures a.xpReward > 0 ==>
                var xp := old(stats)[u].totalXp + a.xpReward;
                stats == old(stats)[u := old(stats)[u].(totalXp := xp, level := xp / 100 + 1, updatedAt := time)]
      ensures a.xpReward <= 0 ==> stats == old(stats)
    {
      earned := earned + {(u, a.id)};
      if a.xpReward > 0 {
        var newXp := stats[u].totalXp + a.xpReward;
        stats := stats[u := stats[u].(totalXp := newXp, level := newXp / 100 + 1, updatedAt := time)];
      }
      earnedCache := earnedCache - {u};
      statsCache := statsCache - {u};
      forall v | v != u ensures EarnedBy(earned, v) == EarnedBy(old(earned), v) {
      }
    }

    // -------------------------------------------------------------- AttemptService

    method UpdateProblemStats(p: ProblemId)
      requires CachesCoherent() && p in problems
      modifies this`problems, this`problemCache
      ensures CachesCoherent()
      ensures problems == old(problems)[p := WithStats(old(problems)[p], attempts, p)]
    {
      var total, correct := Count(attempts, AttemptsOn(p)), Count(attempts, CorrectOn(p));
      var correctRate := if total > 0 then correct as real / total as real else 0.0;
      UpdateStatsOfProblem(p, total, correctRate);
    }

    method RecordGraded(u: UserId, p: ProblemId, t: TopicId, isCorrect: Option<bool>, submitted: Json, timeTaken: nat) returns (attempt: Attempt)
      requires CachesCoherent() && p in problems
      modifies this`attempts, this`problems, this`problemCache, this`progress, this`progressCache
      ensures CachesCoherent() && View() == Graded(old(View()), u, p, t, isCorrect, submitted, timeTaken)
      ensures attempt == NewAttempt(old(View()), u, p, isCorrect, submitted, timeTaken)
      ensures attempts == old(attempts) + [attempt]
      ensures attempt.userId == u && attempt.problemId == p && attempt.submitted == submitted && attempt.timeTaken == timeTaken
      ensures attempt.isCorrect <==> isCorrect == Some(true)
    {
      hide Count, CachesCoherent, Learning.UpdateProgress, WithStats;
      attempt := Attempt(u, p, isCorrect == Some(true), submitted, timeTaken, Count(attempts, AttemptsOf(u, p)) + 1);
      attempts := attempts + [attempt];
      UpdateProblemStats(p);
      if isCorrect.Some? {
        UpdateProgress(u, t, isCorrect.value);
      }
    }

    method ScoreAttempt(u: UserId, isCorrect: Option<bool>, timeTaken: nat, clock: Clock)
      requires CachesCoherent() && DistinctIds(achievements)
      modifies this`earned, this`stats, this`statsCache, this`earnedCache
      ensures CachesCoherent() && View() == Scored(old(View()), u, isCorrect, timeTaken, clock)
    {
      hide CachesCoherent, Learning.CheckAchievements, UpdateStats;
      UpdateStatsAfterAttempt(u, isCorrect, timeTaken, clock);
      CheckAchievements(u, clock.rewarded);
    }

    method Submit(u: UserId, p: ProblemId, submitted: Json, timeTaken: nat, clock: Clock) returns (r: Result<Attempt, Error>)
      requires Valid()
      modifies this
      ensures Valid() && now == old(now)
      ensures View() == Learning.Submit(old(View()), u, p, submitted, timeTaken, clock)
      ensures r == if ProblemVisible(old(View()), p)
                   then Ok(NewAttempt(old(View()), u, p, Grade(old(problems)[p].kind, old(problems)[p].answer, submitted), submitted, timeTaken))
                   else Err(NotFound)
      ensures r.Ok? ==>
                && attempts == old(attempts) + [r.value]
                && r.value.userId == u && r.value.problemId == p && r.value.submitted == submitted && r.value.timeTaken == timeTaken
    {
      hide Inv, Grade, CachesCoherent, Graded, Scored, NewAttempt, DayOf, DistinctIds, Learning.Submit;
      SubmitPreserves(View(), u, p, submitted, timeTaken, clock);
      SubmitIsGradedThenScored(View(), u, p, submitted, timeTaken, clock);
      var found := FindProblem(p);
      if found.Err? {
        return Err(NotFound);
      }
      var problem := found.value;
      var isCorrect := Grade(problem.kind, problem.answer, submitted);
      var attempt := RecordGraded(u, p, problem.topicId, isCorrect, submitted, timeTaken);
      ScoreAttempt(u, isCorrect, timeTaken, clock);
      history := history + [Event(u, p, problem.topicId, isCorrect, timeTaken,
                                  Reading(DayOf(clock.today), if u in stats then DayOf(stats[u].updatedAt) else 0))];
      return Ok(attempt);
    }
  }

  // ---------------------------------------------------------------- the loop of checkAchievements

  /** Looking at one more achievement adds it exactly when it is unearned and met. */
  lemma GrantedStep(all: seq<Achievement>, i: nat, already: set<AchievementId>, snapshot: Stats)
    requires i < |all| && DistinctIds(all)
    ensures var before, after := Granted(all[..i], already, snapshot), Granted(all[..i + 1], already, snapshot);
            var fits := all[i].id !in already && Met(all[i].condition, snapshot);
            && after == before + (if fits then {all[i].id} else {})
            && RewardSum(all[..i + 1], after) == RewardSum(all[..i], before) + (if fits then Reward(all[i]) else 0)
  {
    var before, after := Granted(all[..i], already, snapshot), Granted(all[..i + 1], already, snapshot);
    assert all[..i + 1] == all[..i] + [all[i]];
    assert all[..i + 1][..i] == all[..i];
    assert all[i].id !in before;
    SameRewards(all[..i], before, after, all[i].id);
  }

  lemma EarnsExactly(w: World, u: UserId, now: nat)
    ensures var st := if u in w.stats then w.stats[u] else NewStats(now);
            forall v: UserId, x: AchievementId :: (v, x) in Learning.CheckAchievements(w, u, now).earned <==>
              (v, x) in w.earned || (v == u && exists a :: a in w.achievements && Reaches(a, x, st))
  {
    var st := if u in w.stats then w.stats[u] else NewStats(now);
    hide Learning.CheckAchievements, Reaches;
    forall v: UserId, x: AchievementId
      ensures (v, x) in Learning.CheckAchievements(w, u, now).earned <==>
                (v, x) in w.earned || (v == u && exists a :: a in w.achievements && Reaches(a, x, st))
    {
      CheckEarnsExactly(w, u, now, v, x);
    }
  }

  function Pairs(u: UserId, ids: set<AchievementId>): set<(UserId, AchievementId)> {
    set x | x in ids :: (u, x)
  }

  lemma PairsGrow(u: UserId, ids: set<AchievementId>, a: AchievementId)
    ensures Pairs(u, {}) == {}
    ensures Pairs(u, ids + {a}) == Pairs(u, ids) + {(u, a)}
  {
  }

  /** The earned pairs and the stats rows once the loop has looked at these achievements. */
  function AfterLoop(seen: seq<Achievement>, already: set<AchievementId>, snapshot: Stats,
                     before: set<(UserId, AchievementId)>, others: map<UserId, Stats>, u: UserId, time: nat)
    : (set<(UserId, AchievementId)>, map<UserId, Stats>)
  {
    var granted := Granted(seen, already, snapshot);
    (before + Pairs(u, granted), others[u := Rewarded(snapshot, RewardSum(seen, granted), time)])
  }

  lemma LoopStarts(all: seq<Achievement>, already: set<AchievementId>, snapshot: Stats,
                   before: set<(UserId, AchievementId)>, others: map<UserId, Stats>, u: UserId, time: nat)
    requires u in others && others[u] == snapshot
    ensures AfterLoop(all[..0], already, snapshot, before, others, u, time) == (before, others)
  {
    assert all[..0] == [];
    NothingGranted(already, snapshot);
    PairsGrow(u, {}, 0);
    assert others[u := others[u]] == others;
    assert before + {} == before;
  }

  /** One more achievement: granted exactly when it is unearned and met, and then it was not granted yet. */
  lemma LoopStep(all: seq<Achievement>, i: nat, already: set<AchievementId>, snapshot: Stats,
                 before: set<(UserId, AchievementId)>, others: map<UserId, Stats>, u: UserId, time: nat)
    requires i < |all| && DistinctIds(all) && already == EarnedBy(before, u)
    ensures var (earned, stats) := AfterLoop(all[..i], already, snapshot, before, others, u, time);
            AfterLoop(all[..i + 1], already, snapshot, before, others, u, time) ==
              if all[i].id !in already && Met(all[i].condition, snapshot)
              then (earned + {(u, all[i].id)}, stats[u := Rewarded(stats[u], Reward(all[i]), time)]) else (earned, stats)
    ensures all[i].id !in already ==> (u, all[i].id) !in AfterLoop(all[..i], already, snapshot, before, others, u, time).0
  {
    GrantedStep(all, i, already, snapshot);
    if all[i].id !in already { NotYetGranted(all, i, already, snapshot, before, u); }
    hide Granted, RewardSum, EarnedBy, Met, DistinctIds, Rewarded, Reward, Pairs;
    var granted, a := Granted(all[..i], already, snapshot), all[i].id;
    RewardedTwice(snapshot, RewardSum(all[..i], granted), Reward(all[i]), time);
    assert granted + {} == granted;
    PairsGrow(u, granted, a);
    assert before + (Pairs(u, granted) + {(u, a)}) == before + Pairs(u, granted) + {(u, a)};
    var paid := Rewarded(snapshot, RewardSum(all[..i], granted), time);
    assert others[u := paid][u := Rewarded(paid, Reward(all[i]), time)] == others[u := Rewarded(paid, Reward(all[i]), time)];
  }

  lemma RewardedTwice(st: Stats, a: nat, b: nat, time: nat)
    ensures Rewarded(Rewarded(st, a, time), b, time) == Rewarded(st, a + b, time)
    ensures Rewarded(st, a + 0, time) == Rewarded(st, a, time)
  {
  }

  lemma LoopEnds(all: seq<Achievement>, already: set<AchievementId>, snapshot: Stats,
                 before: set<(UserId, AchievementId)>, others: map<UserId, Stats>, u: UserId, time: nat)
    ensures var granted := Granted(all, already, snapshot);
            AfterLoop(all, already, snapshot, before, others, u, time) ==
              (before + (set x | x in granted :: (u, x)), others[u := Rewarded(snapshot, RewardSum(all, granted), time)])
  {
  }

  lemma SubmitIsGradedThenScored(w: World, u: UserId, p: ProblemId, submitted: Json, timeTaken: nat, clock: Clock)
    requires Inv(w)
    ensures DistinctIds(w.achievements)
    ensures Learning.Submit(w, u, p, submitted, timeTaken, clock) ==
              if !ProblemVisible(w, p) then w
              else
                var row := w.problems[p];
                var outcome := Grade(row.kind, row.answer, submitted);
                var w' := Scored(Graded(w, u, p, row.topicId, outcome, submitted, timeTaken), u, outcome, timeTaken, clock);
                w'.(history := w.history + [Event(u, p, row.topicId, outcome, timeTaken,
                                                  Reading(DayOf(clock.today), if u in w'.stats then DayOf(w'.stats[u].updatedAt) else 0))])
  {
    hide Grade, Graded, Scored, DayOf;
  }

  lemma NothingGranted(already: set<AchievementId>, snapshot: Stats)
    ensures Granted([], already, snapshot) == {} && RewardSum([], {}) == 0
  {
  }

  lemma {:induction false} SameRewards(all: seq<Achievement>, a: set<AchievementId>, b: set<AchievementId>, other: AchievementId)
    requires forall i :: 0 <= i < |all| ==> all[i].id != other
    requires forall x :: x != other ==> (x in a <==> x in b)
    ensures RewardSum(all, a) == RewardSum(all, b)
  {
    if all != [] { SameRewards(all[..|all| - 1], a, b, other); }
  }

  lemma EarnedPair(earned: set<(UserId, AchievementId)>, u: UserId, x: AchievementId)
    ensures (u, x) in earned <==> x in EarnedBy(earned, u)
  {
  }

  lemma NotYetGranted(all: seq<Achievement>, i: nat, already: set<AchievementId>, snapshot: Stats, earned: set<(UserId, AchievementId)>, u: UserId)
    requires i < |all| && DistinctIds(all) && already == EarnedBy(earned, u) && all[i].id !in already
    ensures (u, all[i].id) !in earned + Pairs(u, Granted(all[..i], already, snapshot))
  {
    EarnedPair(earned, u, all[i].id);
  }
}
