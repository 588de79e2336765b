# Verified model of the learning backend

This project models the stateful core of a NestJS learning platform at its service layer and proves what
that core keeps. Prisma tables are maps, Redis is a map whose entries carry expiry times, and the clock is
an input. Objects that the source updates in place are classes here; every method of such a class is tied
to a function on values, and the theorems about whole runs are proved about those functions. Where the
source awaits, a second model splits every call at its awaits and lets the pieces of any number of calls
interleave.

The seven cores, with the modules that hold them:

1. **Curriculum tree and its cache** (`CurriculumTree`, `CurriculumService`, `CurriculumAwaits`). The nested
   query returns exactly the rows whose whole path to the root is visible, in order. Invalidation walks up
   from the written row and gives up silently at a soft-deleted ancestor; it is proved that this never
   leaves a wrong tree behind, because a tree that a write can change is always one that the walk reaches.
   With every call split at its awaits, a hit is always an answer the query really had and its age is bounded.
   It is the current answer unless a call in progress is about to delete its key or a write changed the
   answer between the query and the cache write of the entry's own reader. That exception is shown to be
   real for every update that changes its row. A finished write can stay invisible for a while: when
   another write cuts its lookup chain, the entry goes when that other call has finished.
2. **Sessions and refresh tokens** (`AuthSessions`, `AuthService`, `AuthAwaits`). Token rotation, reuse
   detection, device limit and invalidation flags, with the history of all signed tokens as ghost state.
3. **Attempts, progress, statistics, achievements** (`Learning`, `LearningService`, `Streak`,
   `AchievementFixpoint`). Conservation laws over the five tables one submission writes, the streak counters
   against their definition over the history of days, and the achievement loop, which works on a stale
   snapshot, against the least fixed point it approaches.
4. **Setup wizard** (`Text`, `UriComponent`, `DatabaseUrl`, `EnvFile`, `EnvRoundTrip`). The `.env` printer and
   parser, with DATABASE_URL as a printed format nested in one of its lines. Both round trips are stated as
   if-and-only-if over all inputs.
5. **Rate limiter** (`RateLimit`). INCR and EXPIRE as interleaved steps; a bound for any 60-second interval
   that is reached.
6. **Socket and room indexes** (`SocketIndex`, `SocketGateway`). Two maps that are inverses of each other and
   a room map, updated in place, also while being iterated.
7. **Soft delete and hard delete** (`SoftDelete`, `DeleteMigration`). The rewritten queries are compared with a
   store that really deletes, under the schema's unique keys: they refine it except, exactly, where a
   tombstone still holds a unique value. The nightly purge keeps referential integrity under foreign keys.

`Prelude` and `Redis` hold what the others share. To verify: `dafny verify dfyconfig.toml`.
Nothing was executed: all statements are about the model.

Conventions. Ids are numbers, and a generated UUID is an argument required to be new. SHA-256 is injective and
a password hash is compared as a value; a JWT verifies when this service signed it and it has not expired.
Ties that a query's ORDER BY leaves open are broken by id. Days have 24 hours. Characters are Unicode scalar
values.

Where the code and its own comments disagree, the code is modelled:

- src/common/middleware/rate-limit.middleware.ts calls its scheme a sliding window with a limit per minute.
  It is a fixed window that begins at a counter's first request, and a minute can admit 2 * limit - 1 requests
  (`RateLimit.WindowBoundIsTight`).
- src/core/database/delete-migration.service.ts describes a copy to a separate database before deletion and a
  strict child-before-parent order. There is no copy, and LearningObjective is deleted before Problem, whose
  optional reference to it is cleared (`DeleteMigration.ChildrenBeforeParents`).
- src/core/cache/cache-key.constants.ts gives invalidated sessions a 24-hour TTL; src/auth/auth.service.ts
  writes the flag with the 30 days of the refresh token.
- src/curriculum/curriculum.service.ts writes an absent list filter as 0 in the cache key, so the filter 0
  shares its entry (`CurriculumService.ListRightIffNoZeroFilter`).

Promises that the code keeps only on a condition are stated with the exact condition, for all inputs, and a
failing input or run:

- a list filter must not be 0 (`CurriculumService.ListRightIffNoZeroFilter`);
- a deleted row's unique values stay taken, and an upsert that names it changes the tombstone
  (`SoftDelete.RunRefinesIff`, `SoftDelete.ObstructedIff`); counts and answers include tombstones
  (`SoftDelete.UniqueWriteAnswersIff`, `SoftDelete.ManyWriteAnswersIff`);
- a submission that crosses midnight must be harmless to the next one (`Streak.CountersAreStreaksIff`);
- one achievement call is enough unless its own rewards meet a further condition
  (`AchievementFixpoint.OneCallSufficesIff`);
- an ended session without a flag stays usable while the cached profile lives
  (`AuthSessions.InvalidSessionAcceptedIff`);
- a refresh token is accepted by every refresh that starts before its hash is overwritten
  (`AuthAwaits.RefreshSignsIff`);
- a disconnected socket is forgotten unless a handler puts it back to stay
  (`SocketIndex.DisconnectedSocketIsForgottenIff`);
- a purge is complete when every dependent of an expired row has expired (`DeleteMigration.AllExpiredGoneIff`);
- settings come back when the `.env` format can carry them (`EnvRoundTrip.SettingsComeBackIff`).

## Model

| member | source | states |
|---|---|---|
| CurriculumTree.TreeContainsExactlyVisiblePaths | src/curriculum/curriculum.repository.ts:57-83 | a row occurs in the nested query's tree if and only if every row on its path up to the root is visible |
| CurriculumTree.TreeIsOrdered | src/curriculum/curriculum.repository.ts:57-83 | at every level the children appear once each, ascending by orderIndex |
| CurriculumTree.ListQuery | src/curriculum/curriculum.repository.ts:92-105 | the list holds exactly the visible curricula that pass the given filters |
| CurriculumTree.ListHoldsExactly | src/curriculum/curriculum.repository.ts:92-105 | in columns: no deletion date, grade and semester equal to the filters given |
| CurriculumTree.ListIsOrdered | src/curriculum/curriculum.repository.ts:92-105 | the list is ascending by grade, then semester, then orderIndex, and no curriculum occurs twice |
| CurriculumTree.UnreachedTreeUnchanged | src/curriculum/curriculum.service.ts:461-493 | a write changes no tree that cannot be reached upward from the written row's parent |
| CurriculumTree.TombstoneVanishes | src/curriculum/curriculum.repository.ts:136-139 | writing a deletion date keeps the row's place and content and takes it and every row below it out of every tree; a curriculum also out of every list |
| CurriculumTree.WalkFindsReachedCurriculum | src/curriculum/curriculum.service.ts:485-493 | the invalidation's chain of lookups ends at a curriculum exactly when the start row reaches it through visible rows; the silent skip loses nothing |
| CurriculumTree.WriteAffectsOnlyWalkedTree | src/curriculum/curriculum.service.ts:485-493 | if a write below the top level changes the answer for some curriculum, the lookup chain names that curriculum |
| CurriculumTree.CurriculumWriteAffectsOnlyItself | src/curriculum/curriculum.service.ts:112-147 | writing a curriculum row changes no other curriculum's tree |
| CurriculumTree.WalkIgnoresLowerWrite | src/curriculum/curriculum.service.ts:256-297 | a lookup chain made after the write sees what it would have seen before it |
| CurriculumTree.LowerWriteKeepsLists | src/curriculum/curriculum.service.ts:471-476 | writes below the top level change no filtered list |
| CurriculumService.LowerWriteCoherent | src/curriculum/curriculum.service.ts:161-450 | after any write below the top level, deleting the one walked cache entry (or none, if the walk gave up) restores a cache that agrees with the database |
| CurriculumService.ListRightIffNoZeroFilter | src/curriculum/curriculum.service.ts:58-70 | the list call answers its query and keeps every cache entry right, on all coherent caches, if and only if neither filter is 0 |
| CurriculumService.CurriculumService.InvalidateCurriculumCache | src/curriculum/curriculum.service.ts:461-464 | the tree's entry and every live list entry are gone, nothing else is |
| CurriculumService.CurriculumService.InvalidateListCache | src/curriculum/curriculum.service.ts:471-476 | no list entry is live any more |
| CurriculumService.CurriculumService.InvalidateTopicParentCache | src/curriculum/curriculum.service.ts:485-493 | deletes the entry of the curriculum the lookup chain names, or nothing when a row on the way is soft-deleted |
| CurriculumService.CurriculumService.FindCurriculumList | src/curriculum/curriculum.service.ts:58-70 | through any coherent cache the answer is the current filtered query, for filters absent or non-zero, and the cache stays coherent |
| CurriculumService.CurriculumService.FindCurriculumById | src/curriculum/curriculum.service.ts:82-102 | through any coherent cache the answer is the tree the repository would build now, or not-found; the entry is live afterwards |
| CurriculumService.CurriculumService.CreateCurriculum | src/curriculum/curriculum.service.ts:42-47 | adds one row, drops every list, keeps every entry right |
| CurriculumService.CurriculumService.UpdateCurriculum | src/curriculum/curriculum.service.ts:112-125 | not-found leaves everything unchanged; otherwise each column has its patched or old value, the traced entries are dropped, and every remaining live entry equals its query |
| CurriculumService.CurriculumService.DeleteCurriculum | src/curriculum/curriculum.service.ts:134-147 | not-found leaves everything unchanged; otherwise the row carries a deletion date and keeps its place and content, it and all below it occur in no tree and no list, and every remaining live cache entry is right, also where invalidation is skipped |
| CurriculumService.CurriculumService.CreateChapter | src/curriculum/curriculum.service.ts:161-174 | needs a visible curriculum; the caches stay right |
| CurriculumService.CurriculumService.UpdateChapter | src/curriculum/curriculum.service.ts:184-197 | the caches stay right although the curriculum row is never looked up |
| CurriculumService.CurriculumService.DeleteChapter | src/curriculum/curriculum.service.ts:206-219 | not-found leaves everything unchanged; otherwise the row carries a deletion date and keeps its place and content, it and all below it occur in no tree, and every remaining live cache entry is right, also where invalidation is skipped |
| CurriculumService.CurriculumService.CreateSection | src/curriculum/curriculum.service.ts:233-246 | needs a visible chapter; the caches stay right |
| CurriculumService.CurriculumService.UpdateSection | src/curriculum/curriculum.service.ts:256-272 | the caches stay right also when the chapter is soft-deleted and invalidation is skipped |
| CurriculumService.CurriculumService.DeleteSection | src/curriculum/curriculum.service.ts:281-297 | not-found leaves everything unchanged; otherwise the row carries a deletion date and keeps its place and content, it and all below it occur in no tree, and every remaining live cache entry is right, also where invalidation is skipped |
| CurriculumService.CurriculumService.CreateTopic | src/curriculum/curriculum.service.ts:311-327 | the caches stay right also when invalidation is skipped |
| CurriculumService.CurriculumService.UpdateTopic | src/curriculum/curriculum.service.ts:337-350 | the caches stay right also when the section or chapter is soft-deleted |
| CurriculumService.CurriculumService.DeleteTopic | src/curriculum/curriculum.service.ts:359-372 | not-found leaves everything unchanged; otherwise the row carries a deletion date and keeps its place and content, it and all below it occur in no tree, and every remaining live cache entry is right, also where invalidation is skipped |
| CurriculumService.CurriculumService.CreateObjective | src/curriculum/curriculum.service.ts:386-399 | the caches stay right also when the section or chapter is soft-deleted |
| CurriculumService.CurriculumService.UpdateObjective | src/curriculum/curriculum.service.ts:409-425 | the caches stay right also when the topic, section or chapter is soft-deleted |
| CurriculumService.CurriculumService.DeleteObjective | src/curriculum/curriculum.service.ts:434-450 | not-found leaves everything unchanged; otherwise the row carries a deletion date and keeps its place and content, it and all below it occur in no tree, and every remaining live cache entry is right, also where invalidation is skipped |
| CurriculumAwaits.HitWasTrueAndIsYoung | src/curriculum/curriculum.service.ts:58-102 | under every interleaving of awaits a hit is an answer the query had on the tables of the moment its reader asked, and is younger than the TTL plus that reader's own delay |
| CurriculumAwaits.CompletedWritesAreVisible | src/curriculum/curriculum.service.ts:58-102 | a hit on an entry whose own reader no answer-changing write overtook is the current answer, unless a call in progress is still about to delete that very key; other keys, readers and invalidations in progress do not matter |
| CurriculumAwaits.OverlappedReaderLeavesStaleTree | src/curriculum/curriculum.service.ts:82-102 | the condition is needed: every update that changes its row is lost to a reader that straddles it, with no call left in progress |
| CurriculumAwaits.WalkSurvivesOrHandsOver | src/curriculum/curriculum.service.ts:485-493 | a concurrent write either leaves a walk in progress on its way to the tree or has to invalidate that tree itself |
| CurriculumAwaits.ChangedAnswerIsCoveredByWriter | src/curriculum/curriculum.service.ts:461-493 | an answer changed by a write is one the writer's own remaining steps will delete |
| CurriculumAwaits.UninterruptedWriteIsAtomic | src/curriculum/curriculum.service.ts:42-493 | the steps of any of the fifteen writes that nothing interrupts end, write the one row, delete exactly the cache keys the invalidation names, and touch other calls only by overtaking readers |
| CurriculumAwaits.InvalidationRunsOut | src/curriculum/curriculum.service.ts:461-493 | an invalidation ends within seven steps having deleted exactly the named tree and the lists, or nothing when its walk gives up |
| CurriculumAwaits.CheckStartsIff | src/curriculum/curriculum.service.ts:112-147 | a writer gets past its existence check exactly when the row it asks for carries no deletion date |
| CurriculumAwaits.WriteTook | src/curriculum/curriculum.service.ts:42-425 | the write step leaves patched or old values in each column of the right table |
| CurriculumAwaits.DeleteVanishes | src/curriculum/curriculum.repository.ts:136-139 | the write step of a delete hides the row and everything below it |
| CurriculumAwaits.RunKeepsInvariant | src/curriculum/curriculum.service.ts:42-493 | every interleaving keeps the invariant behind the two theorems above |
| AuthSessions.OneAcceptableTokenPerSession | src/auth/auth.service.ts:248-326 | in every reachable state at most one refresh token of a session would be accepted, and it is no access token |
| AuthSessions.NoTokenIsExchangedTwice | src/auth/auth.service.ts:248-326 | a refresh token that was exchanged is refused in every continuation |
| AuthSessions.ReuseLeavesNoValidSession | src/auth/auth.service.ts:291-303 | presenting any other unexpired token of a valid session invalidates every session of its owner, flags them, and touches no other user's rows |
| AuthSessions.InvalidForever | src/auth/auth.service.ts:645-745 | an invalid session stays in the table and stays invalid over every run |
| AuthSessions.InvalidSessionNeverRefreshes | src/auth/auth.service.ts:248-270 | no token of an invalid session is exchanged in any continuation |
| AuthSessions.DeviceLimitHolds | src/auth/auth.service.ts:645-672 | with a positive device limit k every reachable state has at most k valid sessions per user |
| AuthSessions.FlaggedSessionNeverAccepted | src/auth/auth.service.ts:343-400 | once a session is flagged no token of it, of either kind, opens a request in any later state: the flag outlives every token |
| AuthSessions.AcceptedActsAsOwner | src/auth/auth.service.ts:343-400 | over every run an accepted bearer token acts as the owner of its own session: the cached profile of a user is always that user's |
| AuthSessions.ExpiredSessionIsEnded | src/auth/auth.service.ts:370-386 | on the database path a session is accepted exactly until its expiry, and an expired one is ended |
| AuthSessions.TokensLiveAsLong | src/auth/auth.service.ts:613-633 | an access token opens requests for one hour and a refresh token can be exchanged for 30 days, to the second |
| AuthSessions.EndedSessionsAreFlagged | src/auth/auth.service.ts:645-769 | logout, reuse detection and Google-login displacement flag every session they end |
| AuthSessions.InvalidSessionAcceptedIff | src/auth/auth.service.ts:343-400 | a token of an invalid session still opens requests if and only if the session is unflagged and the user's cached profile is live |
| AuthSessions.DevLoginLeavesOldTokenAccepted | src/auth/auth.service.ts:516-546 | a run of two dev logins after which the first login's access token still works |
| AuthSessions.LogoutEndsSessions | src/auth/auth.service.ts:415-447 | a logout ends exactly one session or exactly the user's active ones, reports their number and leaves the others as they were |
| AuthSessions.LoginsDisplace | src/auth/auth.service.ts:516-672 | at the device limit a Google login leaves only the new session, below it one more; a dev login always leaves only the new one; no other user's session changes |
| AuthSessions.ValidSessionIsAccepted | src/auth/auth.service.ts:343-400 | an unexpired token of a valid, unexpired session always opens requests: no flag ever locks out a valid session |
| AuthSessions.LoginsWork | src/auth/auth.service.ts:134-231 | the pair every login or signup returns works: the access token opens requests and the refresh token is exchanged |
| AuthSessions.RotationWorks | src/auth/auth.service.ts:305-325 | the pair a refresh returns works, so the chain of refreshes goes on |
| AuthSessions.RunKeepsInvariant | src/auth/auth.service.ts:134-447 | over every run: a signed token's user owns its session, stored tokens were issued, redeemed tokens are superseded, flags outlive tokens, the device limit holds |
| AuthService.AuthService.HandleGoogleLogin | src/auth/auth.service.ts:134-231 | fails exactly when no account has the google id and the e-mail is taken by another account or a unique value by any row, each with its own error and nothing changed; otherwise returns the found or new account with working tokens and takes the login step |
| AuthService.AuthService.ResolveGoogleUser | src/auth/auth.service.ts:134-185 | found accounts get the new name and picture; otherwise an account is created unless its email is taken, also by a soft-deleted row |
| AuthService.AuthService.HandleDevSignup | src/auth/auth.service.ts:466-499 | refused exactly when some row, deleted or not, has the e-mail; otherwise a user with the given columns and a session that shows them |
| AuthService.AuthService.HandleDevLogin | src/auth/auth.service.ts:516-546 | wrong credentials change nothing; otherwise the account with that e-mail and password is logged in, all its earlier sessions end and a new one opens |
| AuthService.AuthService.CreateAuthenticatedSession | src/auth/auth.service.ts:559-604 | one new valid session that stores exactly the refresh token it returns |
| AuthService.AuthService.RefreshTokens | src/auth/auth.service.ts:248-326 | keeps the invariant and takes the protocol's refresh step, on every branch |
| AuthService.AuthService.ValidateSession | src/auth/auth.service.ts:343-400 | the principal is the asked user in the asked session, with the columns of the cached profile or else of the user's row; flag, cached profile, row and expiry are consulted in that order |
| AuthService.AuthService.Logout | src/auth/auth.service.ts:415-447 | one or all sessions end, are flagged and counted, and the cached profile is dropped |
| AuthService.AuthService.InvalidateExistingSessions | src/auth/auth.service.ts:645-672 | below the limit nothing happens; at it every active session ends and is flagged |
| AuthService.AuthService.InvalidateAllUserSessions | src/auth/auth.service.ts:704-731 | every active session ends and is flagged; the count is returned |
| AuthService.AuthService.MarkSessionInvalidInCache | src/auth/auth.service.ts:752-769 | one flag for 30 days, or nothing without a cache |
| AuthService.AuthService.MarkAll | src/auth/auth.service.ts:658-666 | the loop flags exactly the given sessions |
| AuthService.AuthService.CacheUserInfo | src/auth/auth.service.ts:799-819 | the profile is cached for an hour, or nothing happens without a cache |
| AuthAwaits.InvalidSessionStaysInvalid | src/auth/auth.service.ts:280-313 | under every interleaving of awaits a session that became invalid never becomes valid again |
| AuthAwaits.OverlappedRefreshIsWorthless | src/auth/auth.service.ts:303-313 | the token issued by a refresh that overlapped the end of its session is never redeemed |
| AuthAwaits.SupersededTokenNeverRedeemed | src/auth/auth.service.ts:303-313 | under every interleaving a token whose stored hash was overwritten is never redeemed again |
| AuthAwaits.InvalidationEndsEverySession | src/auth/auth.service.ts:704-731 | the updateMany step of a full logout or of reuse detection ends every session the user has at that moment |
| AuthAwaits.RefreshSignsIff | src/auth/auth.service.ts:248-305 | under interleaving a refresh signs new tokens exactly when it is handed the stored token of a valid, unexpired session |
| AuthAwaits.UninterruptedRefreshIsAtomic | src/auth/auth.service.ts:248-326 | the steps of a refresh that nothing interrupts add up to the atomic refresh, on every branch |
| AuthAwaits.OverlappingRefreshesBothAccepted | src/auth/auth.service.ts:291-313 | what interleaving loses: two overlapping refreshes of one token are both accepted |
| AuthAwaits.RunKeepsInvariant | src/auth/auth.service.ts:134-747 | every interleaving keeps token ownership, token placement and the disappearance of overwritten tokens |
| Learning.XpIsConserved | src/achievement/achievement.service.ts:131-252 | over every run totalXp is 10 for each correct and 2 for each wrong graded submission of the user plus the earned rewards, the level is a hundredth of it plus one, and the other two sums count every submission |
| Learning.AttemptNumbersAreConsecutive | src/attempt/attempt.service.ts:65-76 | over every run the attempt numbers of a user on a problem are exactly 1..n in order |
| Learning.ProblemStatisticsMatchAttempts | src/attempt/attempt.service.ts:186-190 | over every run, with problems edited, moved and deleted in between, solveCount and correctRate are those of the attempt rows |
| Learning.ProgressMatchesHistory | src/progress/progress.service.ts:86-113 | a progress row exists exactly for topics with graded answers and counts those made while the problem belonged to the topic; 0 <= correctCount <= problemsSolved and masteryLevel is their quotient |
| Learning.ProgressIsConserved | src/progress/progress.service.ts:86-113 | per user the sums over all topics equal the correct and the graded submissions, although problems move between topics |
| Learning.StoredStreaksAreStreaks | src/achievement/achievement.service.ts:150-182 | for submissions in clock order: after each one the stored counters are the current and longest runs of active days if and only if every crossing of midnight was harmless to the next submission |
| Learning.GradeMeaning | src/attempt/attempt.service.ts:156-179 | only essays stay ungraded; padding does not matter to a text answer; a choice is right exactly for the same JSON |
| Learning.TextGradedIff | src/attempt/attempt.service.ts:167-172 | a text answer is right exactly when, trimmed, it differs from the trimmed answer in the case of ASCII letters only |
| Learning.SubmissionEffect | src/attempt/attempt.service.ts:56-102 | every table after an accepted submission: which rows change and which do not |
| Learning.SingleThreshold | src/achievement/achievement.service.ts:215-226 | each of the four thresholds is compared with the column of its own name and met from that number on |
| Learning.ThresholdsConjoin | src/achievement/achievement.service.ts:212-226 | a condition is met exactly when its four thresholds are |
| Learning.CheckEarnsExactly | src/achievement/achievement.service.ts:200-252 | a call earns an achievement if and only if it was earned or each of its present thresholds is at most the same-named column of the row it starts from |
| Learning.SubmitPreserves | src/attempt/attempt.service.ts:56-102 | a submission keeps the joint invariant of all five tables |
| Learning.RunKeepsInvariant | src/attempt/attempt.service.ts:56-102 | so does every run of submissions, problem edits, new achievements and stats reads |
| Streak.CountersAreStreaksIff | src/achievement/achievement.service.ts:150-182 | over every history with a forward clock the incremental counters equal both declarative streaks at every prefix if and only if each crossing of midnight was harmless to the next submission |
| Streak.CountersAreStreaks | src/achievement/achievement.service.ts:150-182 | in particular for every history that crosses no midnight |
| Streak.OneMidnightHarmlessIff | src/achievement/achievement.service.ts:153-169 | when no submission reaches beyond the next day: harmless means that it stored on its own day or the next one comes three or more days later |
| Streak.StreaksAreUnique | src/achievement/achievement.service.ts:150-182 | the declarative definitions determine their numbers |
| Streak.InstantsAdvance | src/achievement/achievement.service.ts:153-169 | in instants: within the same 24-hour day the streak stays, within the next it grows by one, later it restarts |
| Streak.AdvanceKeepsCurrent | src/achievement/achievement.service.ts:163-169 | one more submission keeps currentStreak the length of the run ending on the last active day |
| Streak.AdvanceKeepsLongest | src/achievement/achievement.service.ts:171-173 | one more submission keeps longestStreak the longest run in the whole history |
| Streak.CrossingMidnightHarmlessIff | src/achievement/achievement.service.ts:153-173 | one step, both counters, any stored date from that day up to the next submission: they stay right if and only if the stored day is the counted one, the next submission comes two or more days after the stored one, or it falls on it after a gap with a streak of one |
| Streak.MidnightLosesADay | src/achievement/achievement.repository.ts:136-152 | a history in which such a submission costs a day of streak |
| LearningService.LearningService.Submit | src/attempt/attempt.service.ts:56-102 | an invisible problem changes nothing; otherwise all tables change as specified, in the source's order, and every live cache entry equals its row |
| LearningService.LearningService.FindProblem | src/problem/problem.service.ts:55-75 | the cached answer is the current row |
| LearningService.LearningService.UpdateProblem | src/problem/problem.service.ts:126-145 | each column has its patched or old value, statistics untouched, and the caches stay right |
| LearningService.LearningService.DeleteProblem | src/problem/problem.service.ts:154-169 | the tombstone reaches the row, and no live entry shows the problem |
| LearningService.LearningService.UpdateStatsOfProblem | src/problem/problem.service.ts:180-187 | only the two statistics columns change, and the caches stay right |
| LearningService.LearningService.FindProgress | src/progress/progress.service.ts:50-73 | the cached answer is the current row |
| LearningService.LearningService.UpdateProgress | src/progress/progress.service.ts:86-113 | the counters grow by one answer and the caches stay right |
| LearningService.LearningService.FindStats | src/achievement/achievement.service.ts:91-115 | the cached answer is the current row, created with defaults if missing |
| LearningService.LearningService.FindUserAchievements | src/achievement/achievement.service.ts:64-76 | the cached answer is what is earned now |
| LearningService.LearningService.UpdateStatsAfterAttempt | src/achievement/achievement.service.ts:131-191 | writing back stats that were read through the cache loses no update |
| LearningService.LearningService.StatsAfter | src/achievement/achievement.service.ts:138-173 | the step-by-step arithmetic of XP, level and streak computes the specified stats row |
| LearningService.LearningService.Fulfilled | src/achievement/achievement.service.ts:212-226 | the chain of checks decides whether each present threshold is at most the column of its name |
| LearningService.LearningService.CheckAchievements | src/achievement/achievement.service.ts:200-252 | the loop earns exactly the unearned achievements whose thresholds the snapshot row reaches, each once, pays the sum of their rewards, and earns nothing for other users |
| LearningService.LearningService.Grant | src/achievement/achievement.service.ts:228-246 | one new earned row that respects the unique index, one reward, no stale cache entry |
| LearningService.LearningService.UpdateProblemStats | src/attempt/attempt.service.ts:186-190 | the statistics are recomputed from all attempt rows |
| AchievementFixpoint.OneCallGrantsSnapshot | src/achievement/achievement.service.ts:200-252 | a call earns exactly what was earned plus what the starting stats meet |
| AchievementFixpoint.StaysBelowEveryClosedSet | src/achievement/achievement.service.ts:200-252 | however often the call repeats it earns nothing outside any closed set |
| AchievementFixpoint.EachCallProgresses | src/achievement/achievement.service.ts:200-252 | each call grants something new or changes nothing ever after |
| AchievementFixpoint.ReachesLeastFixedPoint | src/achievement/achievement.service.ts:200-252 | after at most one call per achievement the earned set is the least fixed point of the threshold conditions and the call changes nothing |
| AchievementFixpoint.OneCallSufficesIff | src/achievement/achievement.service.ts:200-252 | a second call changes nothing if and only if every condition met once the first call's rewards are paid belongs to an achievement earned before or met on the snapshot |
| AchievementFixpoint.OneCallMayNotSuffice | src/achievement/achievement.service.ts:206-229 | a world in which it is violated: the reward of one grant meets a condition that the same call has already judged |
| Text.SplitJoin | src/setup/setup.server.ts:117 | splitting joined lines gives the lines back when none contains the separator |
| Text.TrimFacts | src/setup/setup.server.ts:118-123 | trimming changes exactly the strings that begin or end with white space |
| Text.SpaceCodes | src/setup/setup.server.ts:118-123 | which code points those are |
| UriComponent.DecodeEncode | src/setup/env-definitions.ts:314 | decoding undoes percent-encoding for every string, through all four UTF-8 lengths |
| UriComponent.EncodeIsSafe | src/setup/env-definitions.ts:314 | encoded text consists of letters, digits, nine marks and percent signs, so it holds no delimiter of the URL, and text without anything to escape is left alone |
| UriComponent.EscapeDigits | src/setup/env-definitions.ts:314 | escapes are written with upper-case digits, high half first |
| UriComponent.Utf8Lengths | src/setup/env-definitions.ts:314 | the first and last characters of each encoded length |
| DatabaseUrl.MatchIsTheRegex | src/setup/env-definitions.ts:328-330 | cutting at the first delimiters finds exactly the captures of the regular expression, which are unique |
| DatabaseUrl.DatabaseUrlRoundTripIff | src/setup/env-definitions.ts:307-347 | parsing a built URL gives the fields back if and only if user and host are non-empty without colon, the port is digits and the name a non-empty single line; the password is arbitrary |
| DatabaseUrl.ParsedIsRepresentable | src/setup/env-definitions.ts:321-347 | whatever the parser returns, the fallback included, can be printed and parsed again |
| DatabaseUrl.RepresentableIff | src/setup/env-definitions.ts:328-330 | the condition in characters |
| DatabaseUrl.UrlLayout | src/setup/env-definitions.ts:307-316 | which field stands where in the URL |
| DatabaseUrl.NoMatchGivesDefaults | src/setup/env-definitions.ts:331-339 | text that does not match gives the five defaults |
| EnvFile.ParseEnvFile | src/setup/setup.server.ts:112-133 | the loop computes the fold of the lines' assignments; a missing file gives no settings |
| EnvFile.LastAssignmentWins | src/setup/setup.server.ts:117-131 | a key's value is that of the last line assigning it |
| EnvFile.ParsedKeysAreAssigned | src/setup/setup.server.ts:117-131 | a key has only a value that some line assigns to it |
| EnvFile.EnvRecord.EnrichWithDbFields | src/setup/setup.server.ts:138-150 | the five fields are filled in from the URL where missing or empty, non-empty values and all other keys stay; a malformed escape throws before anything is written |
| EnvFile.UnquoteQuoted | src/setup/setup.server.ts:124-130 | text in quotes reads back without them, whatever it holds; a lone quote reads as nothing; other text stays |
| EnvFile.BuildEnvContent | src/setup/setup.server.ts:155-206 | the pushed lines, joined, are the rendering of the header, the five sections and the footer |
| EnvRoundTrip.FileHolds | src/setup/setup.server.ts:155-206 | the file assigns exactly DATABASE_URL and the definitions outside the database group, each its saved value or default |
| EnvRoundTrip.ReadIsIdentityIff | src/setup/setup.server.ts:118-130 | a value survives its line if and only if it is trimmed and not wrapped in matching quotes |
| EnvRoundTrip.TrimmedUrlParsesIff | src/setup/setup.server.ts:138-178 | the URL survives being a line's value if and only if its fields are representable and the name ends in no white space |
| EnvRoundTrip.SettingsComeBackIff | src/setup/setup.server.ts:112-206 | for every definition table of that shape: loading the saved file restores every setting if and only if the plain values are clean and the URL fields survive; a line break anywhere, which could inject other settings, is excluded by proof |
| EnvRoundTrip.SavedValuesComeBack | src/setup/setup.server.ts:112-206 | then each value given comes back, a key left out as its default, and an empty database field as its default too |
| EnvRoundTrip.WizardRestoresIff | src/setup/env-definitions.ts:33-302 | the same for the wizard's own table |
| EnvRoundTrip.EnvDefinitionsAreWellFormed | src/setup/env-definitions.ts:33-302 | the table's keys are distinct, parse as keys, and exactly the five database keys are in the database group |
| EnvRoundTrip.QuotedPasswordIsLost | src/setup/setup.server.ts:125-130 | a quoted Redis password does not come back |
| RateLimit.RateLimiter.Use | src/common/middleware/rate-limit.middleware.ts:66-120 | a path that begins with /auth is admitted exactly up to count 10, any other up to 100, with that limit in the header; the count goes up by one or restarts with an end 60 seconds later; other keys are left alone, and without Redis everything passes |
| RateLimit.Identifier | src/common/middleware/rate-limit.middleware.ts:130-142 | an authenticated user is identified whatever the headers say; a forwarded address is one trimmed item of the list |
| RateLimit.WindowBound | src/common/middleware/rate-limit.middleware.ts:66-120 | under every interleaving of INCR and EXPIRE any 60-second interval admits at most 2 * limit - 1 requests of one key |
| RateLimit.WindowBoundIsTight | src/common/middleware/rate-limit.middleware.ts:66-120 | for every limit there is a schedule that reaches that number |
| RateLimit.EachLifeAdmitsUpToLimit | src/common/middleware/rate-limit.middleware.ts:79-108 | each life of the counter admits exactly its first `limit` requests |
| RateLimit.PathBounds | src/common/middleware/rate-limit.middleware.ts:66-120 | for one identifier on one path, under every interleaving: any 60 seconds admit at most 19 requests below /auth and 199 elsewhere, and each life lets exactly its first 10 or 100 pass |
| RateLimit.LivesLastAWindow | src/common/middleware/rate-limit.middleware.ts:81-83 | consecutive lives of the counter begin at least 60 seconds apart |
| RateLimit.LostExpireBlocksForever | src/common/middleware/rate-limit.middleware.ts:79-83 | if the call that counted 1 never reaches its EXPIRE no new life begins, and once the limit is used up every later request is refused in every continuation |
| RateLimit.UninterruptedIsASchedule | src/common/middleware/rate-limit.middleware.ts:66-120 | the atomic request of the class is one of the interleavings |
| RateLimit.RunKeepsInvariant | src/common/middleware/rate-limit.middleware.ts:66-120 | every interleaving keeps counts equal to positions within a life and at most one call about to set the expiry |
| SocketIndex.RunKeepsIndexes | src/core/socket/socket.gateway.ts:112-305 | at every await boundary userSockets is exactly the inverse of connectedClients without empty sets, no room is empty and every client is in its two default rooms |
| SocketIndex.DisconnectIsPurge | src/core/socket/socket.gateway.ts:172-192 | the bookkeeping of a disconnect takes the socket out of all three maps and changes nothing else |
| SocketIndex.MemberIffLastPutIn | src/core/socket/socket.gateway.ts:112-305 | over every interleaving a socket is in a room if and only if the last connection, join, leave or disconnect that moved it in or out of that room moved it in |
| SocketIndex.StrayClientIff | src/core/socket/socket.gateway.ts:128-192 | a disconnected socket is still a client if and only if its connection handler resumed after the disconnect |
| SocketIndex.StrayMemberIff | src/core/socket/socket.gateway.ts:128-249 | and in a room if and only if the last event to move it since the disconnect moved it in |
| SocketIndex.DisconnectedSocketIsForgottenIff | src/core/socket/socket.gateway.ts:172-192 | it occurs in no map if and only if neither holds, for any room |
| SocketIndex.CompletedHandlersLeaveNoStrays | src/core/socket/socket.gateway.ts:112-305 | with handlers run to completion every room member is connected and no disconnected socket is remembered |
| SocketIndex.LateConnectionLeaksForever | src/core/socket/socket.gateway.ts:128-150 | a connection handler resuming after the disconnect leaves an entry that no later event removes |
| SocketIndex.LateJoinLeaks | src/core/socket/socket.gateway.ts:225-226 | a join handler resuming after the disconnect leaves a membership until that socket leaves that room |
| SocketIndex.PurgingAUserIsExact | src/core/socket/socket.gateway.ts:429-453 | after a purge of a user's sockets the user has none, they are in no room, and every other user's entries are untouched |
| SocketGateway.RoomManager.AddToRoom | src/core/socket/room-manager.service.ts:37-50 | exactly this membership is added, in exactly this room |
| SocketGateway.RoomManager.RemoveFromRoom | src/core/socket/room-manager.service.ts:60-77 | exactly this membership goes, and an empty room disappears |
| SocketGateway.RoomManager.RemoveFromAllRooms | src/core/socket/room-manager.service.ts:119-139 | both loops together take the socket out of every room and drop only rooms that held nothing else |
| SocketGateway.RoomManager.GetRoomMembers | src/core/socket/room-manager.service.ts:85-108 | the members are the sockets the membership test accepts |
| SocketGateway.SocketGateway.HandleConnection | src/core/socket/socket.gateway.ts:112-160 | a rejected socket leaves no trace; an accepted one is tracked and in both default rooms |
| SocketGateway.SocketGateway.HandleDisconnect | src/core/socket/socket.gateway.ts:172-192 | the socket is gone from every map |
| SocketGateway.SocketGateway.HandleRoomJoin | src/core/socket/socket.gateway.ts:208-249 | succeeds exactly for ids made of one of the four kinds, a colon and a non-empty name, reports the member count, keeps the indexes valid |
| SocketIndex.ValidRoomIdIff | src/core/socket/room-manager.service.ts:149-151 | exactly these ids match the pattern |
| SocketGateway.SocketGateway.HandleRoomLeave | src/core/socket/socket.gateway.ts:265-305 | refuses exactly the two default rooms, keeps the indexes valid |
| SocketGateway.SocketGateway.ForceLogoutUser | src/core/socket/socket.gateway.ts:429-453 | terminates though each disconnect shrinks the iterated set; all live sockets of the user are purged, and if all were live the user has no socket and no membership left |
| DeleteMigration.ChildrenBeforeParents | src/core/database/delete-migration.service.ts:56-72 | the list puts the child of every required relation before its parent, and the one optional relation the other way round |
| DeleteMigration.StatementRefusedIff | src/core/database/delete-migration.service.ts:113-137 | when its turn comes a table's statement is refused exactly when, in the original database, an expired row keeps a required dependent |
| DeleteMigration.RunRemovesExactly | src/core/database/delete-migration.service.ts:113-137 | a run removes exactly the rows with a deletion date before the cutoff in tables that are not refused |
| DeleteMigration.RunChangesOnlyObjectiveReference | prisma/schema.prisma:14-286 | a surviving row keeps everything except a problem's reference to a removed objective |
| DeleteMigration.RunKeepsIntegrity | src/core/database/delete-migration.service.ts:113-137 | no dangling reference remains, whichever statements were refused |
| DeleteMigration.AllExpiredGoneIff | src/core/database/delete-migration.service.ts:113-137 | no expired row remains if and only if every dependent of an expired row had expired; then no statement is refused |
| DeleteMigration.DeleteMigrationService.HandleDeleteMigration | src/core/database/delete-migration.service.ts:113-137 | only rows deleted more than the retention period ago go, visible rows and young tombstones stay; older tombstones remain in refused tables only; the total is the number of rows gone and a refused statement does not stop the loop |
| DeleteMigration.DeleteMigrationService.MigrateModel | src/core/database/delete-migration.service.ts:149-165 | all or nothing: rows of this table with a deletion date before the cutoff go, no other row, and none of them when a remaining row requires one |
| DeleteMigration.PurgesWhatIsSoftDeleted | src/core/database/delete-migration.service.ts:56-72 | the list visits every model that the middleware soft-deletes, each once |
| SoftDelete.MiddlewareParams.Apply | src/core/database/soft-delete.middleware.ts:51-96 | the in-place rewriting of action and args, for soft-deleted models only |
| SoftDelete.OwnConditionIsKept | src/core/database/soft-delete.middleware.ts:68-79 | a read with its own condition on deletedAt keeps it, any other is limited to rows without a deletion date |
| SoftDelete.ReadsOfTombstones | src/core/database/soft-delete.middleware.ts:68-79 | a read that asks for deleted rows sees exactly those |
| SoftDelete.ReadsIgnoreTombstones | src/core/database/soft-delete.middleware.ts:59-79 | a rewritten read answers as if the tombstones did not exist |
| SoftDelete.WriteRefinesIff | src/core/database/soft-delete.middleware.ts:51-96 | forgetting tombstones after a rewritten write equals the plain write on the store without them if and only if no tombstone obstructs a write that this store would accept |
| SoftDelete.ObstructedIff | prisma/schema.prisma:14-286 | for a create, an update or an upsert that means: a tombstone is the record named, or holds a unique value of the row written |
| SoftDelete.DeletionsAlwaysRefine | src/core/database/soft-delete.middleware.ts:81-92 | deletions are never obstructed |
| SoftDelete.DeletedKeyStaysTaken | prisma/schema.prisma:14-286 | the values a deleted row had under any unique key cannot be used again, though the store without it accepts them |
| SoftDelete.DeletedEmailStaysTaken | src/auth/auth.service.ts:466-490 | the case of a sign-up with the e-mail of a soft-deleted account |
| SoftDelete.ExecKeepsUnique | prisma/schema.prisma:14-286 | no query leaves two rows with the same unique values |
| SoftDelete.KeysOfTheSchema | prisma/schema.prisma:14-286 | the unique keys of the five models that have some |
| SoftDelete.UniqueWriteAnswersIff | src/core/database/soft-delete.middleware.ts:81-84 | create, update, delete and upsert answer like the plain store except exactly when a tombstone's unique value refuses them or they succeed on a tombstone |
| SoftDelete.ManyWriteAnswersIff | src/core/database/soft-delete.middleware.ts:86-92 | updateMany and deleteMany count like the plain store if and only if no tombstone matches and none is in the way, or both refuse |
| SoftDelete.RunRefinesIff | src/core/database/soft-delete.middleware.ts:51-96 | over every run, after each query the visible rows are those of a store that really removes rows if and only if no write of the run was obstructed by a tombstone |
| SoftDelete.RunsRefineDeletion | src/core/database/soft-delete.middleware.ts:51-96 | after such a run every read answers as that store would |

## Left out

- Cache faults and the hit and miss counters of CacheService: Redis is healthy wherever coherence or the rate bound is claimed.
- Cache keys as strings: entries are keyed by kind and arguments, which the key builders keep apart except for the list filter 0, modelled above. The rate limiter's key is its real string.
- JSON serialisation of cached values (dates become strings): cached values are compared as the rows they were read from.
- Cached progress includes a topic name that other writes change: only the row's own columns are compared.
- The Redis flags are not part of the interleaved session model: they do not influence the session table. They are in the model of completed calls.
- Overlapping logins and overlapping submissions by one user: the source does not protect them, so these theorems are about completed calls.
- Learning.StoredStreaksAreStreaks: days of 23 or 25 hours at a clock change, which the source's division by 86400000 would misjudge.
- Learning.ProblemStatisticsMatchAttempts: rates are real numbers, not rounded doubles, and counters have no 32-bit limit.
- LearningService.LearningService.FindStats: the soft-deleted stats and progress rows that the queries filter out do not occur, since nothing in the source deletes them.
- EnvFile.ParseEnvFile: a line that assigns `__proto__`, which a JavaScript object would swallow; no definition has that key.
- Learning.GradeMeaning: letter case is that of ASCII letters; toLowerCase beyond ASCII is not part of this model.
- UriComponent.DecodeEncode: strings hold no lone surrogates, on which encodeURIComponent throws.
- RateLimit.RateLimiter.Use: TTL rounds to the nearest second, as Redis does; the source only reads what it returns.
- DeleteMigration.DeleteMigrationService.HandleDeleteMigration: the cutoff is computed in days, not with calendar months and clock changes.
- Foreign-key actions are not written in the schema; Prisma's defaults are assumed (a required relation restricts, an optional one is set to null).
- SoftDelete.RunRefinesIff: queries that mention deletedAt themselves (restoring a user, looking for deleted ones) are outside the comparison; a condition is a conjunction of equalities, and tables are compared one at a time.
- Socket.io rooms and emitted events: only the gateway's own indexes and the set of live sockets are modelled; authentication is an input.
- Cryptography, JWT parsing, password hashing, AES settings and secret generation.
- Controllers, DTO validation, pagination, UserService, SocketAuthAdapter, logging, health checks, HTML pages and deployment files: wiring without a hard property.
