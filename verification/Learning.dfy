/**
 What one answer submission does to the five tables it touches (attempt, problem, progress, stats, earned
 achievements), as functions on the tables together with the history of submissions, and the conservation
 laws that hold over every run of submissions that do not overlap.
 */
module Learning {
  import opened Prelude
  import opened Text
  import opened Streak

  type UserId = nat
  type ProblemId = nat
  type TopicId = nat
  type AchievementId = nat

  datatype ProblemType = MultipleChoice | ShortAnswer | Essay | TrueFalse | FillInBlank

  /** A JSON value by its two renderings: JSON.stringify and String. */
  datatype Json = Json(text: string, str: string)

  /** `other` stands for the columns that play no part here. */
  datatype Problem = Problem(
    topicId: TopicId, kind: ProblemType, answer: Json, other: string, solveCount: nat, correctRate: real, deletedAt: Option<nat>)

  datatype Attempt = Attempt(
    userId: UserId, problemId: ProblemId, isCorrect: bool, submitted: Json, timeTaken: nat, attemptNumber: nat)

  datatype Progress = Progress(problemsSolved: nat, correctCount: nat, masteryLevel: real)

  datatype Stats = Stats(
    totalXp: nat, level: nat, currentStreak: nat, longestStreak: nat, totalProblemsSolved: nat, totalStudyTime: nat, updatedAt: nat)

  /** Thresholds; an absent one does not constrain. */
  datatype Condition = Condition(
    totalProblemsSolved: Option<int>, currentStreak: Option<int>, level: Option<int>, totalXp: Option<int>)

  datatype Achievement = Achievement(id: AchievementId, condition: Condition, xpReward: int)

  /** One submission as it happened: the topic the problem had then, the grade, and the days its clock readings fell on. */
  datatype Event = Event(
    userId: UserId, problemId: ProblemId, topicId: TopicId, outcome: Option<bool>, timeTaken: nat, reading: Reading)

  /** `achievements` in creation order. */
  datatype World = World(
    problems: map<ProblemId, Problem>,
    attempts: seq<Attempt>,
    progress: map<(UserId, TopicId), Progress>,
    stats: map<UserId, Stats>,
    achievements: seq<Achievement>,
    earned: set<(UserId, AchievementId)>,
    history: seq<Event>)

  /** The clock as one submission reads it: for the day comparison, at the stats upsert, at the last reward upsert. */
  datatype Clock = Clock(today: nat, wrote: nat, rewarded: nat)

  const EMPTY: World := World(map[], [], map[], map[], [], {}, [])

  // ---------------------------------------------------------------- counting

  function Count<T>(xs: seq<T>, p: T -> bool): nat {
    if xs == [] then 0 else Count(xs[..|xs| - 1], p) + (if p(xs[|xs| - 1]) then 1 else 0)
  }

  lemma CountSnoc<T>(xs: seq<T>, x: T, p: T -> bool)
    ensures Count(xs + [x], p) == Count(xs, p) + (if p(x) then 1 else 0)
  {
    assert (xs + [x])[..|xs|] == xs;
  }

  lemma NoPositions(at: set<nat>)
    requires forall i: nat :: i !in at
    ensures |at| == 0
  {
    assert at == {};
  }

  /** A count is the number of positions that satisfy the predicate. */
  lemma {:induction false} CountIsCardinality<T>(xs: seq<T>, p: T -> bool, at: set<nat>)
    requires forall i: nat :: i in at <==> i < |xs| && p(xs[i])
    ensures Count(xs, p) == |at|
  {
    if xs == [] {
      NoPositions(at);
    } else {
      var n := |xs| - 1;
      CountIsCardinality(xs[..n], p, at - {n});
      if n in at { assert at == (at - {n}) + {n}; } else { assert at - {n} == at; }
    }
  }

  function AttemptsOn(p: ProblemId): Attempt -> bool {
    (a: Attempt) => a.problemId == p
  }

  function CorrectOn(p: ProblemId): Attempt -> bool {
    (a: Attempt) => a.problemId == p && a.isCorrect
  }

  function AttemptsOf(u: UserId, p: ProblemId): Attempt -> bool {
    (a: Attempt) => a.userId == u && a.problemId == p
  }

  function CorrectBy(u: UserId): Event -> bool {
    (e: Event) => e.userId == u && e.outcome == Some(true)
  }

  function WrongBy(u: UserId): Event -> bool {
    (e: Event) => e.userId == u && e.outcome == Some(false)
  }

  function GradedIn(u: UserId, t: TopicId): Event -> bool {
    (e: Event) => e.userId == u && e.topicId == t && e.outcome.Some?
  }

  function CorrectIn(u: UserId, t: TopicId): Event -> bool {
    (e: Event) => e.userId == u && e.topicId == t && e.outcome == Some(true)
  }

  function StudyTime(h: seq<Event>, u: UserId): nat {
    if h == [] then 0
    else StudyTime(h[..|h| - 1], u) + (if h[|h| - 1].userId == u then h[|h| - 1].timeTaken else 0)
  }

  function ReadingsOf(h: seq<Event>, u: UserId): seq<Reading> {
    if h == [] then []
    else ReadingsOf(h[..|h| - 1], u) + (if h[|h| - 1].userId == u then [h[|h| - 1].reading] else [])
  }

  lemma HistorySnoc(h: seq<Event>, e: Event, u: UserId)
    ensures StudyTime(h + [e], u) == StudyTime(h, u) + (if e.userId == u then e.timeTaken else 0)
    ensures ReadingsOf(h + [e], u) == ReadingsOf(h, u) + (if e.userId == u then [e.reading] else [])
  {
    assert (h + [e])[..|h|] == h;
  }

  // ---------------------------------------------------------------- grading

  /** toLowerCase on ASCII letters. */
  function Lower(s: string): string {
    seq(|s|, i requires 0 <= i < |s| => if 'A' <= s[i] <= 'Z' then s[i] - 'A' + 'a' else s[i])
  }

  /** None: an essay is graded by hand. */
  function Grade(kind: ProblemType, answer: Json, submitted: Json): Option<bool> {
    match kind
    case MultipleChoice => Some(answer.text == submitted.text)
    case TrueFalse => Some(answer.text == submitted.text)
    case ShortAnswer => Some(Lower(Trim(answer.str)) == Lower(Trim(submitted.str)))
    case FillInBlank => Some(Lower(Trim(answer.str)) == Lower(Trim(submitted.str)))
    case Essay => None
  }

  /** The two characters are the same, or the same ASCII letter in two cases. */
  predicate SameLetter(a: char, b: char) {
    a == b || ('A' <= a <= 'Z' && b as int == a as int + 32) || ('A' <= b <= 'Z' && a as int == b as int + 32)
  }

  predicate DifferInCaseOnly(s: string, t: string) {
    |s| == |t| && forall i :: 0 <= i < |s| ==> SameLetter(s[i], t[i])
  }

  lemma LowerIffSameLetters(s: string, t: string)
    ensures Lower(s) == Lower(t) <==> DifferInCaseOnly(s, t)
  {
    if Lower(s) == Lower(t) {
      assert |Lower(s)| == |s| && |Lower(t)| == |t|;
      forall i | 0 <= i < |s| ensures SameLetter(s[i], t[i]) {
        assert Lower(s)[i] == Lower(t)[i];
      }
    }
  }

  /** A text answer is right exactly when, trimmed, it differs from the trimmed answer in the case of ASCII letters only. */
  lemma TextGradedIff(kind: ProblemType, answer: Json, submitted: Json)
    requires kind.ShortAnswer? || kind.FillInBlank?
    ensures Grade(kind, answer, submitted) == Some(DifferInCaseOnly(Trim(answer.str), Trim(submitted.str)))
  {
    LowerIffSameLetters(Trim(answer.str), Trim(submitted.str));
    hide Lower, Trim;
  }

  predicate AllSpace(s: string) {
    forall c :: c in s ==> IsSpace(c)
  }

  predicate ComparesText(kind: ProblemType) {
    kind.ShortAnswer? || kind.FillInBlank?
  }

  lemma {:induction false} LowerKeepsTrimStart(s: string)
    ensures Lower(TrimStart(s)) == TrimStart(Lower(s))
  {
    if s != "" && IsSpace(s[0]) {
      assert Lower(s)[1..] == Lower(s[1..]);
      LowerKeepsTrimStart(s[1..]);
    }
  }

  lemma {:induction false} LowerKeepsTrimEnd(s: string)
    ensures Lower(TrimEnd(s)) == TrimEnd(Lower(s))
  {
    if s != "" && IsSpace(s[|s| - 1]) {
      assert Lower(s)[..|s| - 1] == Lower(s[..|s| - 1]);
      LowerKeepsTrimEnd(s[..|s| - 1]);
    }
  }

  lemma LowerKeepsTrim(s: string)
    ensures Lower(Trim(s)) == Trim(Lower(s))
  {
    LowerKeepsTrimStart(s);
    LowerKeepsTrimEnd(TrimStart(s));
  }

  lemma {:induction false} TrimStartPadded(before: string, s: string)
    requires AllSpace(before)
    ensures TrimStart(before + s) == TrimStart(s)
  {
    if before == "" {
      assert before + s == s;
    } else {
      assert (before + s)[1..] == before[1..] + s;
      TrimStartPadded(before[1..], s);
    }
  }

  lemma {:induction false} TrimEndPadded(s: string, after: string)
    requires AllSpace(after)
    ensures TrimEnd(s + after) == TrimEnd(s)
  {
    if after == "" {
      assert s + after == s;
    } else {
      assert (s + after)[..|s + after| - 1] == s + after[..|after| - 1];
      TrimEndPadded(s, after[..|after| - 1]);
    }
  }

  /** Trimming from the front first leaves trailing padding to the second pass. */
  lemma {:induction false} TrimPadded(s: string, after: string)
    requires AllSpace(after)
    ensures Trim(s + after) == Trim(s)
  {
    if s == "" {
      assert s + after == after + "";
      TrimStartPadded(after, "");
    } else if IsSpace(s[0]) {
      assert (s + after)[1..] == s[1..] + after;
      TrimPadded(s[1..], after);
    } else {
      TrimEndPadded(s, after);
    }
  }

  /**
   Only essays are left ungraded. A text answer is right whatever its case and however it is padded; a
   choice is right exactly when it is the same JSON text.
   */
  lemma GradeMeaning(kind: ProblemType, answer: Json, submitted: Json, before: string, core: string, after: string)
    requires AllSpace(before) && AllSpace(after)
    ensures Grade(kind, answer, submitted).None? <==> kind.Essay?
    ensures (ComparesText(kind) && submitted.str == before + core + after && Lower(core) == Lower(answer.str))
            ==> Grade(kind, answer, submitted) == Some(true)
    ensures ComparesText(kind) ==> (Grade(kind, answer, submitted) == Some(true) <==> Trim(Lower(answer.str)) == Trim(Lower(submitted.str)))
    ensures kind.MultipleChoice? || kind.TrueFalse? ==> (Grade(kind, answer, submitted) == Some(true) <==> answer.text == submitted.text)
  {
    hide Trim, Lower;
    LowerKeepsTrim(answer.str);
    LowerKeepsTrim(submitted.str);
    LowerKeepsTrim(core);
    TrimBothEnds(before, core, after);
  }

  lemma TrimBothEnds(before: string, core: string, after: string)
    requires AllSpace(before) && AllSpace(after)
    ensures Trim(before + core + after) == Trim(core)
  {
    assert before + core + after == before + (core + after);
    TrimStartPadded(before, core + after);
    TrimPadded(core, after);
  }

  // ---------------------------------------------------------------- the parts of a submission

  function Rate(correct: nat, total: nat): real {
    if total > 0 then correct as real / total as real else 0.0
  }

  /** The attempt row and the recomputed problem statistics. */
  function RecordAttempt(w: World, a: Attempt): World {
    var attempts := w.attempts + [a];
    w.(attempts := attempts,
       problems := if a.problemId in w.problems
                   then w.problems[a.problemId := WithStats(w.problems[a.problemId], attempts, a.problemId)]
                   else w.problems)
  }

  function WithStats(row: Problem, attempts: seq<Attempt>, p: ProblemId): Problem {
    row.(solveCount := Count(attempts, AttemptsOn(p)),
         correctRate := Rate(Count(attempts, CorrectOn(p)), Count(attempts, AttemptsOn(p))))
  }

  function Progressed(existing: Option<Progress>, correct: bool): Progress {
    var was := match existing case Some(p) => p case None => Progress(0, 0, 0.0);
    var solved, right := was.problemsSolved + 1, was.correctCount + (if correct then 1 else 0);
    Progress(solved, right, right as real / solved as real)
  }

  function ProgressOf(w: World, u: UserId, t: TopicId): Option<Progress> {
    if (u, t) in w.progress then Some(w.progress[(u, t)]) else None
  }

  function UpdateProgress(w: World, u: UserId, t: TopicId, correct: bool): World {
    w.(progress := w.progress[(u, t) := Progressed(ProgressOf(w, u, t), correct)])
  }

  function Level(xp: nat): nat {
    xp / 100 + 1
  }

  function NewStats(now: nat): Stats {
    Stats(0, 1, 0, 0, 0, 0, now)
  }

  /** findStatsByUserId: a missing row is created with the defaults. */
  function EnsureStats(w: World, u: UserId, now: nat): World {
    if u in w.stats then w else w.(stats := w.stats[u := NewStats(now)])
  }

  function XpGain(outcome: Option<bool>): nat {
    match outcome case Some(true) => 10 case Some(false) => 2 case None => 0
  }

  function AfterAttempt(st: Stats, outcome: Option<bool>, timeTaken: nat, clock: Clock): Stats {
    var xp := st.totalXp + XpGain(outcome);
    var c := Advance(Counters(st.currentStreak, st.longestStreak), st.totalProblemsSolved == 0,
                     DayOf(clock.today) - DayOf(st.updatedAt));
    Stats(xp, Level(xp), c.current, c.longest, st.totalProblemsSolved + 1, st.totalStudyTime + timeTaken, clock.wrote)
  }

  function UpdateStats(w: World, u: UserId, outcome: Option<bool>, timeTaken: nat, clock: Clock): World {
    var w1 := EnsureStats(w, u, clock.today);
    w1.(stats := w1.stats[u := AfterAttempt(w1.stats[u], outcome, timeTaken, clock)])
  }

  // ---------------------------------------------------------------- achievements

  predicate AtLeast(value: int, threshold: Option<int>) {
    threshold.Some? ==> threshold.value <= value
  }

  predicate Met(c: Condition, st: Stats) {
    && AtLeast(st.totalProblemsSolved, c.totalProblemsSolved)
    && AtLeast(st.currentStreak, c.currentStreak)
    && AtLeast(st.level, c.level)
    && AtLeast(st.totalXp, c.totalXp)
  }

  /** Each threshold is compared with the column of its own name, and with no other. */
  lemma SingleThreshold(n: int, st: Stats)
    ensures Met(Condition(Some(n), None, None, None), st) <==> n <= st.totalProblemsSolved
    ensures Met(Condition(None, Some(n), None, None), st) <==> n <= st.currentStreak
    ensures Met(Condition(None, None, Some(n), None), st) <==> n <= st.level
    ensures Met(Condition(None, None, None, Some(n)), st) <==> n <= st.totalXp
    ensures Met(Condition(None, None, None, None), st)
  {
  }

  /** A condition is the conjunction of its four thresholds. */
  lemma ThresholdsConjoin(c: Condition, st: Stats)
    ensures Met(c, st) <==>
              && Met(Condition(c.totalProblemsSolved, None, None, None), st) && Met(Condition(None, c.currentStreak, None, None), st)
              && Met(Condition(None, None, c.level, None), st) && Met(Condition(None, None, None, c.totalXp), st)
  {
  }

  /** Every present threshold is at most the column of the same name. */
  predicate ReachedBy(c: Condition, totalProblemsSolved: int, currentStreak: int, level: int, totalXp: int) {
    && (c.totalProblemsSolved.Some? ==> c.totalProblemsSolved.value <= totalProblemsSolved)
    && (c.currentStreak.Some? ==> c.currentStreak.value <= currentStreak)
    && (c.level.Some? ==> c.level.value <= level)
    && (c.totalXp.Some? ==> c.totalXp.value <= totalXp)
  }

  /** The achievement has this id and every present threshold of it is at most the same-named column. */
  predicate Reaches(a: Achievement, id: AchievementId, st: Stats) {
    a.id == id && ReachedBy(a.condition, st.totalProblemsSolved, st.currentStreak, st.level, st.totalXp)
  }

  /** A call earns an achievement exactly when it was earned or its thresholds are at most the columns of the row it starts from. */
  lemma CheckEarnsExactly(w: World, u: UserId, now: nat, v: UserId, x: AchievementId)
    ensures var st := StatsBefore(w, u, now);
            (v, x) in CheckAchievements(w, u, now).earned <==>
              (v, x) in w.earned || (v == u && exists a :: a in w.achievements && Reaches(a, x, st))
  {
    var st := StatsBefore(w, u, now);
    var granted := Granted(w.achievements, EarnedBy(w.earned, u), st);
    assert EnsureStats(w, u, now).stats[u] == st;
    assert (v, x) in CheckAchievements(w, u, now).earned <==> (v, x) in w.earned || (v == u && x in granted);
    forall a | a in w.achievements ensures Met(a.condition, st) <==> Reaches(a, a.id, st) {
    }
    hide Met, Reaches, CheckAchievements;
    if a :| a in w.achievements && Reaches(a, x, st) {
      assert a.id == x by { ReachesId(a, x, st); }
      assert x in granted || x in EarnedBy(w.earned, u);
    }
    if v == u && x in granted {
      var a :| a in w.achievements && a.id == x && Met(a.condition, st);
      assert Reaches(a, x, st);
    }
  }

  lemma ReachesId(a: Achievement, x: AchievementId, st: Stats)
    requires Reaches(a, x, st)
    ensures a.id == x
  {
  }

  function Reward(a: Achievement): nat {
    if a.xpReward > 0 then a.xpReward else 0
  }

  function RewardSum(achievements: seq<Achievement>, ids: set<AchievementId>): nat {
    if achievements == [] then 0
    else
      var last := achievements[|achievements| - 1];
      RewardSum(achievements[..|achievements| - 1], ids) + (if last.id in ids then Reward(last) else 0)
  }

  function EarnedBy(earned: set<(UserId, AchievementId)>, u: UserId): set<AchievementId> {
    set x | x in earned && x.0 == u :: x.1
  }

  /** The unearned achievements whose condition holds on the snapshot. */
  function Granted(achievements: seq<Achievement>, already: set<AchievementId>, snapshot: Stats): set<AchievementId> {
    set a | a in achievements && a.id !in already && Met(a.condition, snapshot) :: a.id
  }

  function Rewarded(st: Stats, reward: nat, now: nat): Stats {
    if reward == 0 then st
    else st.(totalXp := st.totalXp + reward, level := Level(st.totalXp + reward), updatedAt := now)
  }

  function CheckAchievements(w: World, u: UserId, now: nat): World {
    var w1 := EnsureStats(w, u, now);
    var granted := Granted(w1.achievements, EarnedBy(w1.earned, u), w1.stats[u]);
    w1.(earned := w1.earned + (set a | a in granted :: (u, a)),
        stats := w1.stats[u := Rewarded(w1.stats[u], RewardSum(w1.achievements, granted), now)])
  }

  // ---------------------------------------------------------------- the whole submission

  predicate ProblemVisible(w: World, p: ProblemId) {
    p in w.problems && w.problems[p].deletedAt.None?
  }

  function NewAttempt(w: World, u: UserId, p: ProblemId, outcome: Option<bool>, submitted: Json, timeTaken: nat): Attempt {
    Attempt(u, p, outcome == Some(true), submitted, timeTaken, Count(w.attempts, AttemptsOf(u, p)) + 1)
  }

  /** The attempt row, the problem's statistics and, for a graded answer, the progress row. */
  function Graded(w: World, u: UserId, p: ProblemId, t: TopicId, outcome: Option<bool>, submitted: Json, timeTaken: nat): World {
    var w1 := RecordAttempt(w, NewAttempt(w, u, p, outcome, submitted, timeTaken));
    if outcome.Some? then UpdateProgress(w1, u, t, outcome.value) else w1
  }

  /** The stats row, then the achievements. */
  function Scored(w: World, u: UserId, outcome: Option<bool>, timeTaken: nat, clock: Clock): World {
    CheckAchievements(UpdateStats(w, u, outcome, timeTaken, clock), u, clock.rewarded)
  }

  function Submit(w: World, u: UserId, p: ProblemId, submitted: Json, timeTaken: nat, clock: Clock): World {
    if !ProblemVisible(w, p) then w
    else
      var row := w.problems[p];
      var outcome := Grade(row.kind, row.answer, submitted);
      var w' := Scored(Graded(w, u, p, row.topicId, outcome, submitted, timeTaken), u, outcome, timeTaken, clock);
      var stored := if u in w'.stats then DayOf(w'.stats[u].updatedAt) else 0;
      w'.(history := w.history + [Event(u, p, row.topicId, outcome, timeTaken, Reading(DayOf(clock.today), stored))])
  }

  // ---------------------------------------------------------------- the invariant

  /** Attempt rows mirror the history, and each row's number counts the user's earlier rows on the problem. */
  ghost predicate AttemptsOk(attempts: seq<Attempt>, h: seq<Event>) {
    && |attempts| == |h|
    && (forall i :: 0 <= i < |h| ==>
          && attempts[i].userId == h[i].userId && attempts[i].problemId == h[i].problemId
          && attempts[i].timeTaken == h[i].timeTaken && (attempts[i].isCorrect <==> h[i].outcome == Some(true)))
    && forall i :: 0 <= i < |attempts| ==> Numbered(attempts, i)
  }

  predicate Numbered(attempts: seq<Attempt>, i: nat)
    requires i < |attempts|
  {
    attempts[i].attemptNumber == Count(attempts[..i], AttemptsOf(attempts[i].userId, attempts[i].problemId)) + 1
  }

  predicate ProblemOk(row: Problem, attempts: seq<Attempt>, p: ProblemId) {
    row.solveCount == Count(attempts, AttemptsOn(p)) && row.correctRate == Rate(Count(attempts, CorrectOn(p)), row.solveCount)
  }

  ghost predicate ProblemsOk(w: World) {
    && (forall p :: p in w.problems ==> ProblemOk(w.problems[p], w.attempts, p))
    && (forall i :: 0 <= i < |w.attempts| ==> w.attempts[i].problemId in w.problems)
  }

  predicate ProgressRowOk(row: Option<Progress>, h: seq<Event>, u: UserId, t: TopicId) {
    var graded, correct := Count(h, GradedIn(u, t)), Count(h, CorrectIn(u, t));
    match row
    case None => graded == correct == 0
    case Some(p) => p.problemsSolved == graded > 0 && p.correctCount == correct <= graded && p.masteryLevel == correct as real / graded as real
  }

  ghost predicate ProgressOk(w: World) {
    forall u, t :: ProgressRowOk(ProgressOf(w, u, t), w.history, u, t)
  }

  function XpOf(w: World, u: UserId): nat {
    10 * Count(w.history, CorrectBy(u)) + 2 * Count(w.history, WrongBy(u)) + RewardSum(w.achievements, EarnedBy(w.earned, u))
  }

  ghost predicate StatsRowOk(w: World, u: UserId) {
    var readings := ReadingsOf(w.history, u);
    if u in w.stats then
      var st := w.stats[u];
      && st.totalXp == XpOf(w, u) && st.level == Level(st.totalXp)
      && st.totalProblemsSolved == |readings|
      && st.totalStudyTime == StudyTime(w.history, u)
      && Counters(st.currentStreak, st.longestStreak) == Replay(readings)
      && (readings != [] ==> DayOf(st.updatedAt) == readings[|readings| - 1].stored)
    else readings == [] && EarnedBy(w.earned, u) == {}
  }

  ghost predicate StatsOk(w: World) {
    forall u :: StatsRowOk(w, u)
  }

  predicate DistinctIds(achievements: seq<Achievement>) {
    forall i, j :: 0 <= i < j < |achievements| ==> achievements[i].id != achievements[j].id
  }

  /** Only existing achievements are earned. */
  ghost predicate EarnedOk(w: World) {
    forall u, x :: (u, x) in w.earned ==> Known(w.achievements, x)
  }

  predicate Known(achievements: seq<Achievement>, id: AchievementId) {
    exists i :: 0 <= i < |achievements| && achievements[i].id == id
  }

  ghost predicate Inv(w: World) {
    EarnedOk(w) && AttemptsOk(w.attempts, w.history) && ProblemsOk(w) && ProgressOk(w) && StatsOk(w) && DistinctIds(w.achievements)
  }

  // ---------------------------------------------------------------- lemmas about rewards

  lemma {:induction false} RewardSumUnion(achievements: seq<Achievement>, a: set<AchievementId>, b: set<AchievementId>)
    requires a !! b
    ensures RewardSum(achievements, a + b) == RewardSum(achievements, a) + RewardSum(achievements, b)
  {
    if achievements != [] { RewardSumUnion(achievements[..|achievements| - 1], a, b); }
  }

  lemma {:induction false} RewardSumEmpty(achievements: seq<Achievement>)
    ensures RewardSum(achievements, {}) == 0
  {
    if achievements != [] { RewardSumEmpty(achievements[..|achievements| - 1]); }
  }

  lemma {:induction false} RewardSumMonotone(achievements: seq<Achievement>, a: set<AchievementId>, b: set<AchievementId>)
    requires a <= b
    ensures RewardSum(achievements, a) <= RewardSum(achievements, b)
  {
    if achievements != [] { RewardSumMonotone(achievements[..|achievements| - 1], a, b); }
  }

  // ---------------------------------------------------------------- preservation by a submission

  lemma EarnedAfterGrant(earned: set<(UserId, AchievementId)>, u: UserId, granted: set<AchievementId>)
    ensures forall v :: EarnedBy(earned + (set a | a in granted :: (u, a)), v) == EarnedBy(earned, v) + (if v == u then granted else {})
  {
    var more := earned + (set a | a in granted :: (u, a));
    forall v ensures EarnedBy(more, v) == EarnedBy(earned, v) + (if v == u then granted else {}) {
      forall x | x in EarnedBy(earned, v) ensures x in EarnedBy(more, v) { assert (v, x) in more; }
      if v == u { forall x | x in granted ensures x in EarnedBy(more, v) { assert (u, x) in more; } }
    }
  }

  lemma AttemptsExtended(w: World, a: Attempt, e: Event)
    requires AttemptsOk(w.attempts, w.history)
    requires a.userId == e.userId && a.problemId == e.problemId && a.timeTaken == e.timeTaken && (a.isCorrect <==> e.outcome == Some(true))
    requires a.attemptNumber == Count(w.attempts, AttemptsOf(a.userId, a.problemId)) + 1
    ensures AttemptsOk(w.attempts + [a], w.history + [e])
  {
    var more := w.attempts + [a];
    forall i | 0 <= i < |more| ensures Numbered(more, i) {
      assert more[..i] == w.attempts[..i];
      if i < |w.attempts| { assert Numbered(w.attempts, i); } else { assert more[..i] == w.attempts; }
    }
  }

  lemma ProblemsExtended(w: World, a: Attempt)
    requires ProblemsOk(w) && a.problemId in w.problems
    ensures ProblemsOk(RecordAttempt(w, a))
  {
    var w' := RecordAttempt(w, a);
    forall p | p in w'.problems ensures ProblemOk(w'.problems[p], w'.attempts, p) {
      CountSnoc(w.attempts, a, AttemptsOn(p));
      CountSnoc(w.attempts, a, CorrectOn(p));
    }
  }

  lemma ProgressExtended(w: World, w': World, e: Event)
    requires ProgressOk(w) && w'.history == w.history + [e]
    requires w'.progress == if e.outcome.Some? then UpdateProgress(w, e.userId, e.topicId, e.outcome.value).progress else w.progress
    ensures ProgressOk(w')
  {
    forall u, t ensures ProgressRowOk(ProgressOf(w', u, t), w'.history, u, t) {
      CountSnoc(w.history, e, GradedIn(u, t));
      CountSnoc(w.history, e, CorrectIn(u, t));
      assert ProgressRowOk(ProgressOf(w, u, t), w.history, u, t);
    }
  }

  /** XP grows by the gain for the grade and by the rewards of the newly granted achievements. */
  lemma XpExtended(w: World, w': World, u: UserId, e: Event, granted: set<AchievementId>)
    requires e.userId == u && w'.history == w.history + [e]
    requires w'.achievements == w.achievements && granted !! EarnedBy(w.earned, u)
    requires EarnedBy(w'.earned, u) == EarnedBy(w.earned, u) + granted
    ensures XpOf(w', u) == XpOf(w, u) + XpGain(e.outcome) + RewardSum(w.achievements, granted)
  {
    CountSnoc(w.history, e, CorrectBy(u));
    CountSnoc(w.history, e, WrongBy(u));
    RewardSumUnion(w.achievements, EarnedBy(w.earned, u), granted);
    hide Count, RewardSum, EarnedBy;
  }

  /** The user's own stats row after the attempt was counted and the rewards granted. */
  lemma OwnStatsExtended(w: World, w': World, u: UserId, e: Event, clock: Clock, granted: set<AchievementId>)
    requires StatsRowOk(w, u) && e.userId == u && w'.history == w.history + [e]
    requires w'.achievements == w.achievements && granted !! EarnedBy(w.earned, u)
    requires EarnedBy(w'.earned, u) == EarnedBy(w.earned, u) + granted
    requires var st := (if u in w.stats then w.stats[u] else NewStats(clock.today));
             u in w'.stats && w'.stats[u] == Rewarded(AfterAttempt(st, e.outcome, e.timeTaken, clock), RewardSum(w.achievements, granted), clock.rewarded)
    requires e.reading == Reading(DayOf(clock.today), DayOf(w'.stats[u].updatedAt))
    ensures StatsRowOk(w', u)
  {
    XpExtended(w, w', u, e, granted);
    HistorySnoc(w.history, e, u);
    var before := ReadingsOf(w.history, u);
    if u !in w.stats { RewardSumEmpty(w.achievements); NoEventsNoCounts(w.history, u); }
    var st := if u in w.stats then w.stats[u] else NewStats(clock.today);
    assert st.totalXp == XpOf(w, u);
    ReplaySnoc(before, e.reading);
    hide XpOf, ReadingsOf, StudyTime, EarnedBy, RewardSum, DayOf, Advance, Replay;
    assert Replay([]) == Counters(0, 0) by { ReplayEmpty(); }
  }

  lemma ReplaySnoc(before: seq<Reading>, r: Reading)
    ensures Replay(before + [r]) == Advance(Replay(before), before == [], r.today - (if before == [] then 0 else before[|before| - 1].stored))
  {
    assert (before + [r])[..|before|] == before;
  }

  lemma ReplayEmpty()
    ensures Replay([]) == Counters(0, 0)
  {
  }

  /** A user without a stats row has no event in the history. */
  lemma {:induction false} NoEventsNoCounts(h: seq<Event>, u: UserId)
    requires ReadingsOf(h, u) == []
    ensures Count(h, CorrectBy(u)) == Count(h, WrongBy(u)) == StudyTime(h, u) == 0
  {
    if h != [] { NoEventsNoCounts(h[..|h| - 1], u); }
  }

  lemma OtherStatsExtended(w: World, w': World, v: UserId, e: Event)
    requires StatsRowOk(w, v) && e.userId != v && w'.history == w.history + [e]
    requires w'.achievements == w.achievements && EarnedBy(w'.earned, v) == EarnedBy(w.earned, v)
    requires (v in w'.stats <==> v in w.stats) && (v in w.stats ==> w'.stats[v] == w.stats[v])
    ensures StatsRowOk(w', v)
  {
    CountSnoc(w.history, e, CorrectBy(v));
    CountSnoc(w.history, e, WrongBy(v));
    HistorySnoc(w.history, e, v);
    assert ReadingsOf(w'.history, v) == ReadingsOf(w.history, v);
  }

  function StatsBefore(w: World, u: UserId, now: nat): Stats {
    if u in w.stats then w.stats[u] else NewStats(now)
  }

  /** Every table after an accepted submission, in one place. */
  lemma SubmissionEffect(w: World, u: UserId, p: ProblemId, submitted: Json, timeTaken: nat, clock: Clock)
    requires ProblemVisible(w, p)
    ensures var row := w.problems[p];
            var outcome := Grade(row.kind, row.answer, submitted);
            var a := NewAttempt(w, u, p, outcome, submitted, timeTaken);
            var st := AfterAttempt(StatsBefore(w, u, clock.today), outcome, timeTaken, clock);
            var granted := Granted(w.achievements, EarnedBy(w.earned, u), st);
            var final := Rewarded(st, RewardSum(w.achievements, granted), clock.rewarded);
            Submit(w, u, p, submitted, timeTaken, clock) ==
              World(RecordAttempt(w, a).problems,
                    w.attempts + [a],
                    if outcome.Some? then UpdateProgress(w, u, row.topicId, outcome.value).progress else w.progress,
                    w.stats[u := final],
                    w.achievements,
                    w.earned + (set x | x in granted :: (u, x)),
                    w.history + [Event(u, p, row.topicId, outcome, timeTaken, Reading(DayOf(clock.today), DayOf(final.updatedAt)))])
  {
    hide Grade, AfterAttempt, Granted, EarnedBy, Rewarded, RewardSum, DayOf, NewAttempt, WithStats, Progressed;
  }

  lemma SubmitPreserves(w: World, u: UserId, p: ProblemId, submitted: Json, timeTaken: nat, clock: Clock)
    requires Inv(w)
    ensures Inv(Submit(w, u, p, submitted, timeTaken, clock))
  {
    if ProblemVisible(w, p) {
      SubmissionEffect(w, u, p, submitted, timeTaken, clock);
      hide Submit, Grade, AfterAttempt, Granted, EarnedBy, Rewarded, RewardSum, DayOf, Progressed, WithStats,
           Count, Numbered, ProblemOk, ProgressRowOk, StatsRowOk;
      var outcome := Grade(w.problems[p].kind, w.problems[p].answer, submitted);
      var w' := Submit(w, u, p, submitted, timeTaken, clock);
      var a := NewAttempt(w, u, p, outcome, submitted, timeTaken);
      var e := w'.history[|w.history|];
      AttemptsExtended(w, a, e);
      ProblemsExtended(w, a);
      ProgressExtended(w, w', e);
      StatsExtended(w, w', u, e, clock);
      var st := AfterAttempt(StatsBefore(w, u, clock.today), outcome, timeTaken, clock);
      GrantedAreKnown(w.achievements, EarnedBy(w.earned, u), st);
      assert EarnedOk(w');
    }
  }

  lemma StatsExtended(w: World, w': World, u: UserId, e: Event, clock: Clock)
    requires StatsOk(w) && e.userId == u && w'.history == w.history + [e] && w'.achievements == w.achievements
    requires var st := AfterAttempt(StatsBefore(w, u, clock.today), e.outcome, e.timeTaken, clock);
             var granted := Granted(w.achievements, EarnedBy(w.earned, u), st);
             var final := Rewarded(st, RewardSum(w.achievements, granted), clock.rewarded);
             && w'.stats == w.stats[u := final] && w'.earned == w.earned + (set x | x in granted :: (u, x))
             && e.reading == Reading(DayOf(clock.today), DayOf(final.updatedAt))
    ensures StatsOk(w')
  {
    hide StatsRowOk, AfterAttempt, Granted, EarnedBy, Rewarded, RewardSum, DayOf;
    var st := AfterAttempt(StatsBefore(w, u, clock.today), e.outcome, e.timeTaken, clock);
    var granted := Granted(w.achievements, EarnedBy(w.earned, u), st);
    GrantedAreNew(w.achievements, EarnedBy(w.earned, u), st);
    EarnedAfterGrant(w.earned, u, granted);
    forall v ensures StatsRowOk(w', v) {
      assert StatsRowOk(w, v);
      if v == u {
        OwnStatsExtended(w, w', u, e, clock, granted);
      } else {
        assert EarnedBy(w'.earned, v) == EarnedBy(w.earned, v) + {};
        OtherStatsExtended(w, w', v, e);
      }
    }
  }

  lemma GrantedAreNew(achievements: seq<Achievement>, already: set<AchievementId>, snapshot: Stats)
    ensures Granted(achievements, already, snapshot) !! already
  {
  }

  lemma GrantedAreKnown(achievements: seq<Achievement>, already: set<AchievementId>, snapshot: Stats)
    ensures forall x :: x in Granted(achievements, already, snapshot) ==> Known(achievements, x)
  {
  }

  // ---------------------------------------------------------------- the other operations, and runs

  datatype ProblemPatch = ProblemPatch(topicId: Option<TopicId>, kind: Option<ProblemType>, answer: Option<Json>, other: Option<string>)

  function Or<T>(patch: Option<T>, current: T): T {
    match patch case Some(v) => v case None => current
  }

  function PatchedProblem(row: Problem, p: ProblemPatch): Problem {
    row.(topicId := Or(p.topicId, row.topicId), kind := Or(p.kind, row.kind), answer := Or(p.answer, row.answer), other := Or(p.other, row.other))
  }

  predicate Took<T(==)>(patch: Option<T>, was: T, got: T) {
    (patch.Some? ==> got == patch.value) && (patch.None? ==> got == was)
  }

  /** What an edit leaves in each column: the patched value or the old one, and never other statistics. */
  predicate ProblemTook(was: Problem, p: ProblemPatch, got: Problem) {
    && Took(p.topicId, was.topicId, got.topicId) && Took(p.kind, was.kind, got.kind)
    && Took(p.answer, was.answer, got.answer) && Took(p.other, was.other, got.other)
    && got.solveCount == was.solveCount && got.correctRate == was.correctRate && got.deletedAt == was.deletedAt
  }

  datatype Action =
    | DoSubmit(u: UserId, p: ProblemId, submitted: Json, timeTaken: nat, clock: Clock)
    | CreateProblem(p: ProblemId, topicId: TopicId, kind: ProblemType, answer: Json, other: string)
    | UpdateProblem(p: ProblemId, patch: ProblemPatch)
    | DeleteProblem(p: ProblemId, at: nat)
    | CreateAchievement(a: Achievement)
    | ReadStats(u: UserId, now: nat)

  function Apply(w: World, a: Action): World {
    match a
    case DoSubmit(u, p, submitted, timeTaken, clock) => Submit(w, u, p, submitted, timeTaken, clock)
    case CreateProblem(p, t, kind, answer, other) =>
      if p in w.problems then w else w.(problems := w.problems[p := Problem(t, kind, answer, other, 0, 0.0, None)])
    case UpdateProblem(p, patch) =>
      if ProblemVisible(w, p) then w.(problems := w.problems[p := PatchedProblem(w.problems[p], patch)]) else w
    case DeleteProblem(p, at) =>
      if ProblemVisible(w, p) then w.(problems := w.problems[p := w.problems[p].(deletedAt := Some(at))]) else w
    case CreateAchievement(x) =>
      if Known(w.achievements, x.id) then w else w.(achievements := w.achievements + [x])
    case ReadStats(u, now) => EnsureStats(w, u, now)
  }

  function Execute(actions: seq<Action>): World {
    if actions == [] then EMPTY else Apply(Execute(actions[..|actions| - 1]), actions[|actions| - 1])
  }

  lemma {:induction false} NoAttempts(attempts: seq<Attempt>, p: ProblemId)
    requires forall i :: 0 <= i < |attempts| ==> attempts[i].problemId != p
    ensures Count(attempts, AttemptsOn(p)) == Count(attempts, CorrectOn(p)) == 0
  {
    if attempts != [] { NoAttempts(attempts[..|attempts| - 1], p); }
  }

  lemma ProblemChangePreserves(w: World, w': World, p: ProblemId)
    requires Inv(w) && p in w'.problems && w' == w.(problems := w.problems[p := w'.problems[p]])
    requires p in w.problems ==> w'.problems[p].solveCount == w.problems[p].solveCount && w'.problems[p].correctRate == w.problems[p].correctRate
    requires p !in w.problems ==> w'.problems[p].solveCount == 0 && w'.problems[p].correctRate == 0.0
    ensures Inv(w')
  {
    hide AttemptsOk, StatsRowOk, ProgressRowOk;
    if p !in w.problems { NoAttempts(w.attempts, p); }
    assert forall u, t :: ProgressOf(w', u, t) == ProgressOf(w, u, t);
    assert forall q :: q in w'.problems ==> ProblemOk(w'.problems[q], w'.attempts, q);
    forall u ensures StatsRowOk(w', u) { StatsRowFrame(w, w', u); }
  }

  /** A stats row depends only on the history, the achievements, what was earned and the row itself. */
  lemma StatsRowFrame(w: World, w': World, u: UserId)
    requires StatsOk(w) && w'.history == w.history && w'.achievements == w.achievements && w'.earned == w.earned
    requires (u in w'.stats <==> u in w.stats) && (u in w.stats ==> w'.stats[u] == w.stats[u])
    ensures StatsRowOk(w', u)
  {
    assert StatsRowOk(w, u);
  }

  lemma {:induction false} RewardSumAppend(achievements: seq<Achievement>, a: Achievement, ids: set<AchievementId>)
    requires a.id !in ids
    ensures RewardSum(achievements + [a], ids) == RewardSum(achievements, ids)
  {
    assert (achievements + [a])[..|achievements|] == achievements;
  }

  lemma NewAchievementPreserves(w: World, a: Achievement)
    requires Inv(w) && !Known(w.achievements, a.id)
    ensures Inv(w.(achievements := w.achievements + [a]))
  {
    var w' := w.(achievements := w.achievements + [a]);
    hide AttemptsOk, ProblemOk, ProgressRowOk;
    assert forall x :: Known(w.achievements, x) ==> Known(w'.achievements, x) by {
      forall x | Known(w.achievements, x) ensures Known(w'.achievements, x) {
        var i :| 0 <= i < |w.achievements| && w.achievements[i].id == x;
        assert w'.achievements[i].id == x;
      }
    }
    assert forall u, t :: ProgressOf(w', u, t) == ProgressOf(w, u, t);
    forall u ensures StatsRowOk(w', u) {
      assert StatsRowOk(w, u);
      assert a.id !in EarnedBy(w.earned, u);
      RewardSumAppend(w.achievements, a, EarnedBy(w.earned, u));
    }
  }

  lemma EnsureStatsPreserves(w: World, u: UserId, now: nat)
    requires Inv(w)
    ensures Inv(EnsureStats(w, u, now))
  {
    var w' := EnsureStats(w, u, now);
    hide AttemptsOk, ProblemOk, ProgressRowOk;
    assert forall v, t :: ProgressOf(w', v, t) == ProgressOf(w, v, t);
    forall v ensures StatsRowOk(w', v) {
      assert StatsRowOk(w, v);
      if v == u && u !in w.stats {
        NoEventsNoCounts(w.history, u);
        RewardSumEmpty(w.achievements);
      }
    }
  }

  lemma StepPreserves(w: World, a: Action)
    requires Inv(w)
    ensures Inv(Apply(w, a))
  {
    hide Inv, Submit, EnsureStats, Known;
    match a {
      case DoSubmit(u, p, submitted, timeTaken, clock) => SubmitPreserves(w, u, p, submitted, timeTaken, clock);
      case CreateProblem(p, _, _, _, _) => if p !in w.problems { ProblemChangePreserves(w, Apply(w, a), p); }
      case UpdateProblem(p, _) => if ProblemVisible(w, p) { ProblemChangePreserves(w, Apply(w, a), p); }
      case DeleteProblem(p, _) => if ProblemVisible(w, p) { ProblemChangePreserves(w, Apply(w, a), p); }
      case CreateAchievement(x) => if !Known(w.achievements, x.id) { NewAchievementPreserves(w, x); }
      case ReadStats(u, now) => EnsureStatsPreserves(w, u, now);
    }
  }

  lemma {:induction false} RunKeepsInvariant(actions: seq<Action>)
    ensures Inv(Execute(actions))
  {
    if actions != [] {
      RunKeepsInvariant(actions[..|actions| - 1]);
      StepPreserves(Execute(actions[..|actions| - 1]), actions[|actions| - 1]);
    } else {
      assert forall u :: EarnedBy({}, u) == {};
    }
  }

  // ---------------------------------------------------------------- the theorems

  /** The positions of a user's submissions with this grade in the history. */
  function Outcomes(h: seq<Event>, u: UserId, outcome: Option<bool>): set<nat> {
    set i: nat | i < |h| && h[i].userId == u && h[i].outcome == outcome
  }

  /**
   XP is conserved: ten for every correct and two for every wrong graded answer plus the earned rewards; the
   level follows it, and the other two sums count every submission.
   */
  lemma XpIsConserved(actions: seq<Action>, u: UserId)
    requires u in Execute(actions).stats
    ensures var w := Execute(actions);
            var st := w.stats[u];
            && st.totalXp == 10 * |Outcomes(w.history, u, Some(true))| + 2 * |Outcomes(w.history, u, Some(false))|
                             + RewardSum(w.achievements, EarnedBy(w.earned, u))
            && st.level == st.totalXp / 100 + 1
            && st.totalProblemsSolved == |set i: nat | i < |w.history| && w.history[i].userId == u|
            && st.totalStudyTime == StudyTime(w.history, u)
  {
    RunKeepsInvariant(actions);
    var w := Execute(actions);
    assert StatsRowOk(w, u);
    CountIsCardinality(w.history, CorrectBy(u), Outcomes(w.history, u, Some(true)));
    CountIsCardinality(w.history, WrongBy(u), Outcomes(w.history, u, Some(false)));
    ReadingsPerSubmission(w.history, u, set i: nat | i < |w.history| && w.history[i].userId == u);
  }

  lemma {:induction false} ReadingsPerSubmission(h: seq<Event>, u: UserId, at: set<nat>)
    requires forall i: nat :: i in at <==> i < |h| && h[i].userId == u
    ensures |ReadingsOf(h, u)| == |at|
  {
    if h == [] {
      NoPositions(at);
    } else {
      var n := |h| - 1;
      ReadingsPerSubmission(h[..n], u, at - {n});
      if n in at { assert at == (at - {n}) + {n}; } else { assert at - {n} == at; }
    }
  }

  /** The attempt numbers a user's rows on one problem carry, in row order. */
  function NumbersOf(attempts: seq<Attempt>, u: UserId, p: ProblemId): seq<nat> {
    if attempts == [] then []
    else
      var last := attempts[|attempts| - 1];
      NumbersOf(attempts[..|attempts| - 1], u, p) + (if last.userId == u && last.problemId == p then [last.attemptNumber] else [])
  }

  lemma {:induction false} NumbersFollow(attempts: seq<Attempt>, u: UserId, p: ProblemId)
    requires forall i :: 0 <= i < |attempts| ==> Numbered(attempts, i)
    ensures |NumbersOf(attempts, u, p)| == Count(attempts, AttemptsOf(u, p))
    ensures forall j :: 0 <= j < |NumbersOf(attempts, u, p)| ==> NumbersOf(attempts, u, p)[j] == j + 1
  {
    if attempts != [] {
      var front := attempts[..|attempts| - 1];
      forall i | 0 <= i < |front| ensures Numbered(front, i) {
        assert front[..i] == attempts[..i] && Numbered(attempts, i);
      }
      NumbersFollow(front, u, p);
      assert Numbered(attempts, |attempts| - 1);
    }
  }

  /** Attempt numbers per user and problem are exactly 1, 2, ..., n. */
  lemma AttemptNumbersAreConsecutive(actions: seq<Action>, u: UserId, p: ProblemId)
    ensures var numbers := NumbersOf(Execute(actions).attempts, u, p);
            var attempts := Execute(actions).attempts;
            && |numbers| == |set i: nat | i < |attempts| && attempts[i].userId == u && attempts[i].problemId == p|
            && forall j :: 0 <= j < |numbers| ==> numbers[j] == j + 1
  {
    RunKeepsInvariant(actions);
    var attempts := Execute(actions).attempts;
    NumbersFollow(attempts, u, p);
    CountIsCardinality(attempts, AttemptsOf(u, p), set i: nat | i < |attempts| && attempts[i].userId == u && attempts[i].problemId == p);
  }

  /** Every problem's statistics are those of its attempt rows, also for problems edited, moved or deleted since. */
  lemma ProblemStatisticsMatchAttempts(actions: seq<Action>, p: ProblemId)
    requires p in Execute(actions).problems
    ensures var w := Execute(actions);
            var all := set i: nat | i < |w.attempts| && w.attempts[i].problemId == p;
            var correct := set i: nat | i < |w.attempts| && w.attempts[i].problemId == p && w.attempts[i].isCorrect;
            && w.problems[p].solveCount == |all|
            && w.problems[p].correctRate == if |all| == 0 then 0.0 else |correct| as real / |all| as real
  {
    RunKeepsInvariant(actions);
    var w := Execute(actions);
    assert ProblemOk(w.problems[p], w.attempts, p);
    CountIsCardinality(w.attempts, AttemptsOn(p), set i: nat | i < |w.attempts| && w.attempts[i].problemId == p);
    CountIsCardinality(w.attempts, CorrectOn(p), set i: nat | i < |w.attempts| && w.attempts[i].problemId == p && w.attempts[i].isCorrect);
  }

  /** A progress row counts the graded submissions made while the problem belonged to that topic. */
  lemma ProgressMatchesHistory(actions: seq<Action>, u: UserId, t: TopicId)
    ensures var w := Execute(actions);
            var h := w.history;
            var graded := |set i: nat | i < |h| && h[i].userId == u && h[i].topicId == t && h[i].outcome.Some?|;
            var correct := |set i: nat | i < |h| && h[i].userId == u && h[i].topicId == t && h[i].outcome == Some(true)|;
            && ((u, t) in w.progress <==> graded > 0)
            && correct <= graded
            && ((u, t) in w.progress ==> w.progress[(u, t)] == Progress(graded, correct, correct as real / graded as real))
            && graded == Count(h, GradedIn(u, t)) && correct == Count(h, CorrectIn(u, t))
  {
    RunKeepsInvariant(actions);
    var w := Execute(actions);
    var h := w.history;
    assert ProgressRowOk(ProgressOf(w, u, t), h, u, t);
    CountIsCardinality(h, GradedIn(u, t), set i: nat | i < |h| && h[i].userId == u && h[i].topicId == t && h[i].outcome.Some?);
    CountIsCardinality(h, CorrectIn(u, t), set i: nat | i < |h| && h[i].userId == u && h[i].topicId == t && h[i].outcome == Some(true));
  }

  /**
   After each of a user's submissions the stored counters are the streaks of the active days so far, if and
   only if every crossing of midnight was harmless to the next submission; then the stored row has them now.
   */
  lemma StoredStreaksAreStreaks(actions: seq<Action>, u: UserId)
    requires u in Execute(actions).stats && ClockForward(ReadingsOf(Execute(actions).history, u))
    ensures var w := Execute(actions);
            var readings := ReadingsOf(w.history, u);
            var harmless := forall i :: 0 <= i < |readings| - 1 ==> HarmlessAt(readings, i);
            && Counters(w.stats[u].currentStreak, w.stats[u].longestStreak) == Replay(readings)
            && ((forall n :: 0 <= n <= |readings| ==> RightAfter(readings, n)) <==> harmless)
            && (harmless ==> Refines(Days(readings), Counters(w.stats[u].currentStreak, w.stats[u].longestStreak)))
  {
    RunKeepsInvariant(actions);
    assert StatsRowOk(Execute(actions), u);
    var readings := ReadingsOf(Execute(actions).history, u);
    CountersAreStreaksIff(readings);
    RightAtEnd(readings);
    hide *;
  }

  // ---------------------------------------------------------------- sums over topics

  ghost function SumOver(topics: set<TopicId>, f: TopicId -> nat): nat {
    if topics == {} then 0
    else
      var t :| t in topics;
      f(t) + SumOver(topics - {t}, f)
  }

  lemma {:induction false} SumOneMore(topics: set<TopicId>, f: TopicId -> nat, g: TopicId -> nat, t: TopicId, d: nat)
    requires forall x :: x in topics ==> g(x) == f(x) + (if x == t then d else 0)
    ensures SumOver(topics, g) == SumOver(topics, f) + (if t in topics then d else 0)
  {
    if topics != {} {
      var x: TopicId :| x in topics && SumOver(topics, f) == f(x) + SumOver(topics - {x}, f) && SumOver(topics, g) == g(x) + SumOver(topics - {x}, g);
      SumOneMore(topics - {x}, f, g, t, d);
    }
  }

  lemma {:induction false} SumZero(topics: set<TopicId>, f: TopicId -> nat)
    requires forall x :: x in topics ==> f(x) == 0
    ensures SumOver(topics, f) == 0
  {
    if topics != {} {
      var x: TopicId :| x in topics && SumOver(topics, f) == f(x) + SumOver(topics - {x}, f);
      SumZero(topics - {x}, f);
    }
  }

  ghost function GradedPerTopic(h: seq<Event>, u: UserId): TopicId -> nat {
    (t: TopicId) => Count(h, GradedIn(u, t))
  }

  ghost function CorrectPerTopic(h: seq<Event>, u: UserId): TopicId -> nat {
    (t: TopicId) => Count(h, CorrectIn(u, t))
  }

  lemma TwoGrades(outcome: Option<bool>)
    ensures outcome in {None, Some(true), Some(false)}
  {
    match outcome {
      case None =>
      case Some(right) => if right { assert outcome == Some(true); } else { assert outcome == Some(false); }
    }
  }

  /** Summing per-topic counts over all topics that occur gives the per-user counts. */
  lemma {:induction false} TopicsPartitionHistory(h: seq<Event>, u: UserId, topics: set<TopicId>)
    requires forall i :: 0 <= i < |h| && h[i].userId == u && h[i].outcome.Some? ==> h[i].topicId in topics
    ensures SumOver(topics, CorrectPerTopic(h, u)) == Count(h, CorrectBy(u))
    ensures SumOver(topics, GradedPerTopic(h, u)) == Count(h, CorrectBy(u)) + Count(h, WrongBy(u))
  {
    if h == [] {
      SumZero(topics, CorrectPerTopic(h, u));
      SumZero(topics, GradedPerTopic(h, u));
    } else {
      var front, e := h[..|h| - 1], h[|h| - 1];
      assert forall i :: 0 <= i < |front| ==> front[i] == h[i];
      TopicsPartitionHistory(front, u, topics);
      assert e.userId == u && e.outcome.Some? ==> e.topicId in topics;
      TwoGrades(e.outcome);
      SumOneMore(topics, CorrectPerTopic(front, u), CorrectPerTopic(h, u), e.topicId, if e.userId == u && e.outcome == Some(true) then 1 else 0);
      SumOneMore(topics, GradedPerTopic(front, u), GradedPerTopic(h, u), e.topicId, if e.userId == u && e.outcome.Some? then 1 else 0);
    }
  }

  function TopicsOf(w: World, u: UserId): set<TopicId> {
    set x | x in w.progress && x.0 == u :: x.1
  }

  ghost function SolvedIn(w: World, u: UserId): TopicId -> nat {
    (t: TopicId) => if (u, t) in w.progress then w.progress[(u, t)].problemsSolved else 0
  }

  ghost function RightIn(w: World, u: UserId): TopicId -> nat {
    (t: TopicId) => if (u, t) in w.progress then w.progress[(u, t)].correctCount else 0
  }

  lemma {:induction false} SumSame(topics: set<TopicId>, f: TopicId -> nat, g: TopicId -> nat)
    requires forall x :: x in topics ==> f(x) == g(x)
    ensures SumOver(topics, f) == SumOver(topics, g)
  {
    SumOneMore(topics, f, g, 0, 0);
  }

  /** Per user, the progress rows of all topics together account for every graded and every correct submission. */
  lemma ProgressIsConserved(actions: seq<Action>, u: UserId)
    ensures var w := Execute(actions);
            && SumOver(TopicsOf(w, u), RightIn(w, u)) == |Outcomes(w.history, u, Some(true))|
            && SumOver(TopicsOf(w, u), SolvedIn(w, u)) == |Outcomes(w.history, u, Some(true))| + |Outcomes(w.history, u, Some(false))|
  {
    var w := Execute(actions);
    forall t ensures RightIn(w, u)(t) == CorrectPerTopic(w.history, u)(t) && SolvedIn(w, u)(t) == GradedPerTopic(w.history, u)(t)
    {
      ProgressMatchesHistory(actions, u, t);
    }
    forall i | 0 <= i < |w.history| && w.history[i].userId == u && w.history[i].outcome.Some?
      ensures w.history[i].topicId in TopicsOf(w, u)
    {
      ProgressMatchesHistory(actions, u, w.history[i].topicId);
      GradedOccurs(w.history, i);
      assert (u, w.history[i].topicId) in w.progress;
    }
    CountIsCardinality(w.history, CorrectBy(u), Outcomes(w.history, u, Some(true)));
    CountIsCardinality(w.history, WrongBy(u), Outcomes(w.history, u, Some(false)));
    SumSame(TopicsOf(w, u), RightIn(w, u), CorrectPerTopic(w.history, u));
    SumSame(TopicsOf(w, u), SolvedIn(w, u), GradedPerTopic(w.history, u));
    TopicsPartitionHistory(w.history, u, TopicsOf(w, u));
  }

  lemma {:induction false} GradedOccurs(h: seq<Event>, i: nat)
    requires i < |h| && h[i].outcome.Some?
    ensures Count(h, GradedIn(h[i].userId, h[i].topicId)) > 0
  {
    if i < |h| - 1 { GradedOccurs(h[..|h| - 1], i); }
  }
}
