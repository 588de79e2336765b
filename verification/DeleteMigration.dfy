/**
 DeleteMigrationService: the nightly purge that hard-deletes rows whose tombstone is older than the
 retention period, one DELETE statement per table, children before parents. A statement is all or
 nothing: MySQL refuses it if a remaining row requires one of the rows to delete, and clears an optional
 reference to a deleted row (Prisma's default referential actions).
 */
module DeleteMigration {
  import opened Prelude
  import SoftDelete

  datatype Model =
    | User | UserSession | UserStats | Curriculum | Chapter | Section | Topic | LearningObjective
    | Problem | UserProblemAttempt | UserProgress | Achievement | UserAchievement

  /** The foreign keys of the schema. */
  datatype Fk =
    | SessionUser | ChapterCurriculum | SectionChapter | TopicSection | ObjectiveTopic
    | ProblemTopic | ProblemObjective | AttemptUser | AttemptProblem | ProgressUser | ProgressTopic
    | EarnedUser | EarnedAchievement | StatsUser
  {
    function Child(): Model {
      match this
      case SessionUser => UserSession
      case ChapterCurriculum => Chapter
      case SectionChapter => Section
      case TopicSection => Topic
      case ObjectiveTopic => LearningObjective
      case ProblemTopic => Problem
      case ProblemObjective => Problem
      case AttemptUser => UserProblemAttempt
      case AttemptProblem => UserProblemAttempt
      case ProgressUser => UserProgress
      case ProgressTopic => UserProgress
      case EarnedUser => UserAchievement
      case EarnedAchievement => UserAchievement
      case StatsUser => UserStats
    }

    function Parent(): Model {
      match this
      case SessionUser => User
      case ChapterCurriculum => Curriculum
      case SectionChapter => Chapter
      case TopicSection => Section
      case ObjectiveTopic => Topic
      case ProblemTopic => Topic
      case ProblemObjective => LearningObjective
      case AttemptUser => User
      case AttemptProblem => Problem
      case ProgressUser => User
      case ProgressTopic => Topic
      case EarnedUser => User
      case EarnedAchievement => Achievement
      case StatsUser => User
    }

    predicate Required() {
      this != ProblemObjective
    }
  }

  datatype Key = Key(model: Model, id: nat)

  /** `refs` holds the foreign keys that are not null; `data` stands for every other column. */
  datatype Row = Row(deletedAt: Option<int>, refs: map<Fk, nat>, data: string)

  type Db = map<Key, Row>

  function Target(row: Row, f: Fk): Key
    requires f in row.refs
  {
    Key(f.Parent(), row.refs[f])
  }

  /** Every row carries only its own table's foreign keys, and each names an existing row. */
  predicate Integrity(db: Db) {
    forall k, f :: k in db && f in db[k].refs ==> f.Child() == k.model && Target(db[k], f) in db
  }

  /** migrationTargets */
  const TARGETS: seq<Model> := [
    UserAchievement, UserProblemAttempt, UserProgress, UserStats, LearningObjective, Problem, Topic,
    Section, Chapter, Curriculum, Achievement, UserSession, User]

  function Position(m: Model): (i: nat)
    ensures i < |TARGETS| && TARGETS[i] == m
  {
    match m
    case UserAchievement => 0
    case UserProblemAttempt => 1
    case UserProgress => 2
    case UserStats => 3
    case LearningObjective => 4
    case Problem => 5
    case Topic => 6
    case Section => 7
    case Chapter => 8
    case Curriculum => 9
    case Achievement => 10
    case UserSession => 11
    case User => 12
  }

  /** The list visits the child of a required relation before its parent; the one optional relation is listed the other way round. */
  lemma ChildrenBeforeParents(f: Fk)
    ensures f.Required() ==> Position(f.Child()) < Position(f.Parent())
    ensures !f.Required() ==> Position(f.Parent()) < Position(f.Child())
  {
    hide TARGETS;
  }

  lemma TargetPosition(i: nat)
    requires i < |TARGETS|
    ensures Position(TARGETS[i]) == i
  {
  }

  lemma PositionUnique(m: Model, i: nat)
    requires i < |TARGETS|
    ensures Position(m) == i <==> m == TARGETS[i]
  {
    TargetPosition(i);
  }

  /** tableName of the target. */
  function TableName(m: Model): string {
    match m
    case User => "User"
    case UserSession => "UserSession"
    case UserStats => "UserStats"
    case Curriculum => "Curriculum"
    case Chapter => "Chapter"
    case Section => "Section"
    case Topic => "Topic"
    case LearningObjective => "LearningObjective"
    case Problem => "Problem"
    case UserProblemAttempt => "UserProblemAttempt"
    case UserProgress => "UserProgress"
    case Achievement => "Achievement"
    case UserAchievement => "UserAchievement"
  }

  /** The purge visits every model that the middleware soft-deletes, each once. */
  lemma PurgesWhatIsSoftDeleted(m: Model)
    ensures TableName(m) in SoftDelete.SOFT_DELETE_MODELS
    ensures TARGETS[Position(m)] == m && forall i :: 0 <= i < |TARGETS| && TARGETS[i] == m ==> i == Position(m)
  {
    forall i | 0 <= i < |TARGETS| && TARGETS[i] == m ensures i == Position(m) {
      TargetPosition(i);
    }
  }

  // ---------------------------------------------------------------- one DELETE statement

  predicate Expired(row: Row, cutoff: int) {
    row.deletedAt.Some? && row.deletedAt.value < cutoff
  }

  function Doomed(db: Db, m: Model, cutoff: int): (keys: set<Key>)
    ensures keys <= db.Keys
  {
    set k | k in db && k.model == m && Expired(db[k], cutoff)
  }

  predicate RefersInto(row: Row, f: Fk, keys: set<Key>) {
    f in row.refs && Target(row, f) in keys
  }

  /** Some remaining row requires a row that the statement would delete. */
  ghost predicate Restricts(db: Db, doomed: set<Key>) {
    exists k, f: Fk :: k in db && k !in doomed && f.Required() && RefersInto(db[k], f, doomed)
  }

  function Cleared(row: Row, gone: set<Key>): Row {
    row.(refs := map f | f in row.refs && (f.Required() || !RefersInto(row, f, gone)) :: row.refs[f])
  }

  function Deleted(db: Db, doomed: set<Key>): Db {
    map k | k in db && k !in doomed :: Cleared(db[k], doomed)
  }

  // ---------------------------------------------------------------- the whole run, independently of its steps

  /** A table's statement is refused when an expired row of it keeps a required dependent. */
  ghost predicate Refused(db: Db, cutoff: int, m: Model)
    decreases Position(m)
  {
    exists k, f :: k in db && f in db[k].refs && f.Required() && f.Parent() == m
      && Target(db[k], f) in db && Expired(db[Target(db[k], f)], cutoff)
      && Position(f.Child()) < Position(m)
      && (!Expired(db[k], cutoff) || Refused(db, cutoff, f.Child()))
  }

  ghost predicate Removed(db: Db, cutoff: int, k: Key) {
    k in db && Expired(db[k], cutoff) && !Refused(db, cutoff, k.model)
  }

  ghost function RemovedBefore(db: Db, cutoff: int, n: nat): set<Key> {
    set k | k in db && Position(k.model) < n && Removed(db, cutoff, k)
  }

  /** The database after the first `n` statements, said directly: which rows are gone and which references cleared. */
  ghost function Swept(db: Db, cutoff: int, n: nat): Db {
    Deleted(db, RemovedBefore(db, cutoff, n))
  }

  lemma SameDoomed(db: Db, cutoff: int, n: nat)
    requires n < |TARGETS|
    ensures Doomed(Swept(db, cutoff, n), TARGETS[n], cutoff) == Doomed(db, TARGETS[n], cutoff)
  {
    hide Refused;
    TargetPosition(n);
  }

  lemma RestrictedThenRefused(db: Db, cutoff: int, n: nat)
    requires Integrity(db) && n < |TARGETS|
    ensures Restricts(Swept(db, cutoff, n), Doomed(db, TARGETS[n], cutoff)) ==> Refused(db, cutoff, TARGETS[n])
  {
    var db', m := Swept(db, cutoff, n), TARGETS[n];
    var doomed := Doomed(db, m, cutoff);
    if k, f: Fk :| k in db' && k !in doomed && f.Required() && RefersInto(db'[k], f, doomed) {
      ChildrenBeforeParents(f);
      TargetPosition(n);
      assert Target(db[k], f) == Target(db'[k], f) && Target(db[k], f).model == m;
      assert !Removed(db, cutoff, k);
    }
  }

  lemma RefusedThenRestricted(db: Db, cutoff: int, n: nat)
    requires Integrity(db) && n < |TARGETS|
    ensures Refused(db, cutoff, TARGETS[n]) ==> Restricts(Swept(db, cutoff, n), Doomed(db, TARGETS[n], cutoff))
  {
    var db', m := Swept(db, cutoff, n), TARGETS[n];
    if Refused(db, cutoff, m) {
      var k, f: Fk :| k in db && f in db[k].refs && f.Required() && f.Parent() == m
        && Target(db[k], f) in db && Expired(db[Target(db[k], f)], cutoff)
        && Position(f.Child()) < Position(m)
        && (!Expired(db[k], cutoff) || Refused(db, cutoff, f.Child()));
      assert k in db' && RefersInto(db'[k], f, Doomed(db, m, cutoff));
    }
  }

  lemma StatementRefusedIff(db: Db, cutoff: int, n: nat)
    requires Integrity(db) && n < |TARGETS|
    ensures var db' := Swept(db, cutoff, n); var m := TARGETS[n];
            && Doomed(db', m, cutoff) == Doomed(db, m, cutoff)
            && (Restricts(db', Doomed(db', m, cutoff)) <==> Refused(db, cutoff, m))
  {
    SameDoomed(db, cutoff, n);
    hide Restricts, Refused, Swept, Doomed;
    RestrictedThenRefused(db, cutoff, n);
    RefusedThenRestricted(db, cutoff, n);
  }

  lemma NothingSwept(db: Db, cutoff: int)
    ensures Swept(db, cutoff, 0) == db && RefusedBefore(db, cutoff, 0) == {}
  {
    assert RemovedBefore(db, cutoff, 0) == {};
    assert forall k :: k in db ==> Cleared(db[k], {}) == db[k];
  }

  lemma DeletedTwice(db: Db, a: set<Key>, b: set<Key>)
    ensures Deleted(Deleted(db, a), b) == Deleted(db, a + b)
  {
    forall k | k in db ensures Cleared(Cleared(db[k], a), b) == Cleared(db[k], a + b) {
    }
  }

  lemma NextRemoved(db: Db, cutoff: int, n: nat)
    requires n < |TARGETS|
    ensures RemovedBefore(db, cutoff, n + 1) ==
              RemovedBefore(db, cutoff, n) + if Refused(db, cutoff, TARGETS[n]) then {} else Doomed(db, TARGETS[n], cutoff)
  {
    hide Refused, TARGETS;
    forall m: Model ensures Position(m) == n <==> m == TARGETS[n] { PositionUnique(m, n); }
  }

  lemma NextSweep(db: Db, cutoff: int, n: nat)
    requires n < |TARGETS|
    ensures var before, doomed := Swept(db, cutoff, n), Doomed(db, TARGETS[n], cutoff);
            Swept(db, cutoff, n + 1) == if Refused(db, cutoff, TARGETS[n]) then before else Deleted(before, doomed)
  {
    NextRemoved(db, cutoff, n);
    DeletedTwice(db, RemovedBefore(db, cutoff, n), Doomed(db, TARGETS[n], cutoff));
    hide Refused, RemovedBefore, Deleted, Doomed;
    assert RemovedBefore(db, cutoff, n) + {} == RemovedBefore(db, cutoff, n);
  }

  ghost function RefusedBefore(db: Db, cutoff: int, n: nat): set<Model> {
    set m: Model | Position(m) < n && Refused(db, cutoff, m)
  }

  lemma NextRefused(db: Db, cutoff: int, n: nat)
    requires n < |TARGETS|
    ensures RefusedBefore(db, cutoff, n + 1) ==
              RefusedBefore(db, cutoff, n) + if Refused(db, cutoff, TARGETS[n]) then {TARGETS[n]} else {}
  {
    hide Refused, TARGETS;
    forall m: Model ensures Position(m) == n <==> m == TARGETS[n] { PositionUnique(m, n); }
  }

  lemma DeletedCount(db: Db, doomed: set<Key>)
    requires doomed <= db.Keys
    ensures |Deleted(db, doomed)| == |db| - |doomed|
  {
    assert Deleted(db, doomed).Keys == db.Keys - doomed;
  }

  /** What the statement for the n-th table does to the swept database and to the set of refused tables. */
  lemma StatementOutcome(db: Db, cutoff: int, n: nat)
    requires Integrity(db) && n < |TARGETS|
    ensures var before, m := Swept(db, cutoff, n), TARGETS[n];
            var doomed := Doomed(before, m, cutoff);
            if Restricts(before, doomed) then
              && Swept(db, cutoff, n + 1) == before
              && RefusedBefore(db, cutoff, n + 1) == RefusedBefore(db, cutoff, n) + {m}
            else
              && Swept(db, cutoff, n + 1) == Deleted(before, doomed)
              && |Deleted(before, doomed)| + |doomed| == |before|
              && RefusedBefore(db, cutoff, n + 1) == RefusedBefore(db, cutoff, n)
  {
    StatementRefusedIff(db, cutoff, n);
    NextSweep(db, cutoff, n);
    NextRefused(db, cutoff, n);
    DeletedCount(Swept(db, cutoff, n), Doomed(db, TARGETS[n], cutoff));
    hide Refused, RefusedBefore, Swept, Doomed, Deleted, Restricts, Integrity, TARGETS;
    assert RefusedBefore(db, cutoff, n) + {} == RefusedBefore(db, cutoff, n);
  }

  /** Nothing is new, nothing changes its date, and what is gone was deleted before the cutoff: visible rows and young tombstones stay. */
  predicate OldTombstonesOnly(db: Db, db': Db, cutoff: int) {
    && (forall k :: k in db' ==> k in db && db'[k].deletedAt == db[k].deletedAt && db'[k].data == db[k].data)
    && (forall k :: k in db && k !in db' ==> db[k].deletedAt.Some? && db[k].deletedAt.value < cutoff)
  }

  lemma NothingTaken(db: Db, cutoff: int)
    ensures OldTombstonesOnly(db, db, cutoff)
  {
  }

  lemma SweptTakesOldTombstones(db: Db, cutoff: int)
    ensures var db' := Swept(db, cutoff, |TARGETS|);
            && OldTombstonesOnly(db, db', cutoff)
            && (forall k :: k in db' && db'[k].deletedAt.Some? && db'[k].deletedAt.value < cutoff
                  ==> k.model in RefusedBefore(db, cutoff, |TARGETS|))
  {
    hide Refused;
  }

  // ---------------------------------------------------------------- the service

  class DeleteMigrationService {
    var db: Db
    const enabled: bool
    const retentionDays: nat

    constructor (rows: Db, isEnabled: bool, days: nat)
      ensures db == rows && enabled == isEnabled && retentionDays == days
    {
      db, enabled, retentionDays := rows, isEnabled, days;
    }

    /** The raw DELETE; None when the database refuses it. */
    method MigrateModel(m: Model, cutoff: int) returns (deleted: Option<nat>)
      modifies this`db
      ensures var doomed := Doomed(old(db), m, cutoff);
              if Restricts(old(db), doomed) then deleted == None && db == old(db)
              else deleted == Some(|doomed|) && db == Deleted(old(db), doomed)
      ensures OldTombstonesOnly(old(db), db, cutoff)
      ensures forall k :: k in old(db) && k !in db ==> k.model == m
      ensures deleted.Some? ==> forall k :: k in db && k.model == m ==> old(db)[k].deletedAt == None || old(db)[k].deletedAt.value >= cutoff
    {
      var doomed := Doomed(db, m, cutoff);
      var restricting := set k | k in db && k !in doomed && exists f :: f in db[k].refs && f.Required() && Target(db[k], f) in doomed;
      assert Restricts(db, doomed) <==> restricting != {} by {
        if k :| k in restricting {
          var f :| f in db[k].refs && f.Required() && Target(db[k], f) in doomed;
          assert RefersInto(db[k], f, doomed);
        }
        if k, f: Fk :| k in db && k !in doomed && f.Required() && RefersInto(db[k], f, doomed) {
          assert k in restricting;
        }
      }
      if restricting != {} {
        return None;
      }
      db := Deleted(db, doomed);
      return Some(|doomed|);
    }

    /** Today's date counts in days; a refused statement is logged and the loop goes on. */
    method HandleDeleteMigration(today: int) returns (totalDeleted: nat, failed: set<Model>)
      requires Integrity(db)
      modifies this`db
      ensures !enabled ==> db == old(db) && totalDeleted == 0 && failed == {}
      ensures enabled ==>
                var cutoff := today - retentionDays;
                && db == Swept(old(db), cutoff, |TARGETS|)
                && failed == RefusedBefore(old(db), cutoff, |TARGETS|)
      ensures |db| + totalDeleted == |old(db)|
      ensures OldTombstonesOnly(old(db), db, today - retentionDays)
      ensures enabled ==> forall k :: k in db && db[k].deletedAt.Some? && db[k].deletedAt.value < today - retentionDays ==> k.model in failed
    {
      NothingTaken(db, today - retentionDays);
      hide *;
      totalDeleted, failed := 0, {};
      if !enabled {
        return;
      }
      var cutoff := today - retentionDays;
      NothingSwept(db, cutoff);
      for i := 0 to |TARGETS|
        invariant db == Swept(old(db), cutoff, i)
        invariant |db| + totalDeleted == |old(db)|
        invariant failed == RefusedBefore(old(db), cutoff, i)
      {
        var m := TARGETS[i];
        StatementOutcome(old(db), cutoff, i);
        var deleted := MigrateModel(m, cutoff);
        match deleted {
          case Some(count) => totalDeleted := totalDeleted + count;
          case None => failed := failed + {m};
        }
      }
      SweptTakesOldTombstones(old(db), cutoff);
    }
  }

  // ---------------------------------------------------------------- what a run achieves

  /** Exactly the rows deleted before the cutoff in tables that were not refused are gone; no other row disappears. */
  lemma RunRemovesExactly(db: Db, cutoff: int, k: Key)
    ensures k in Swept(db, cutoff, |TARGETS|) <==>
              k in db && (db[k].deletedAt == None || db[k].deletedAt.value >= cutoff || Refused(db, cutoff, k.model))
  {
    hide Refused;
  }

  /** A surviving row keeps everything except, for a problem, a reference to an objective that was removed. */
  lemma RunChangesOnlyObjectiveReference(db: Db, cutoff: int, k: Key)
    requires k in Swept(db, cutoff, |TARGETS|)
    ensures var row := Swept(db, cutoff, |TARGETS|)[k];
            && row.deletedAt == db[k].deletedAt && row.data == db[k].data
            && (forall f :: f in db[k].refs && f != ProblemObjective ==> f in row.refs)
            && (forall f :: f in row.refs ==> f in db[k].refs && row.refs[f] == db[k].refs[f])
            && (ProblemObjective in db[k].refs ==>
                  (ProblemObjective !in row.refs <==> Removed(db, cutoff, Key(LearningObjective, db[k].refs[ProblemObjective]))))
  {
    assert RefersInto(db[k], ProblemObjective, RemovedBefore(db, cutoff, |TARGETS|)) <==>
      ProblemObjective in db[k].refs && Removed(db, cutoff, Key(LearningObjective, db[k].refs[ProblemObjective]));
  }

  /** No dangling reference is left behind, whichever statements were refused. */
  lemma RunKeepsIntegrity(db: Db, cutoff: int)
    requires Integrity(db)
    ensures Integrity(Swept(db, cutoff, |TARGETS|))
  {
    var db' := Swept(db, cutoff, |TARGETS|);
    forall k, f | k in db' && f in db'[k].refs ensures f.Child() == k.model && Target(db'[k], f) in db' {
      var p := Target(db[k], f);
      assert Target(db'[k], f) == p && p in db;
      ChildrenBeforeParents(f);
      if f.Required() && Expired(db[p], cutoff) {
        assert Refused(db, cutoff, p.model);
      } else if !f.Required() {
        assert !RefersInto(db[k], f, RemovedBefore(db, cutoff, |TARGETS|));
      }
    }
  }

  /** Every row that requires an expired row is itself expired. */
  ghost predicate DependentsExpired(db: Db, cutoff: int) {
    forall k, f :: k in db && f in db[k].refs && f.Required() && Target(db[k], f) in db && Expired(db[Target(db[k], f)], cutoff)
      ==> Expired(db[k], cutoff)
  }

  lemma {:induction false} CleanTableNotRefused(db: Db, cutoff: int, m: Model)
    requires DependentsExpired(db, cutoff)
    ensures !Refused(db, cutoff, m)
    decreases Position(m)
  {
    forall f: Fk | Position(f.Child()) < Position(m) ensures !Refused(db, cutoff, f.Child()) {
      CleanTableNotRefused(db, cutoff, f.Child());
    }
  }

  /** A run leaves no expired row exactly when every dependent of an expired row had expired too. */
  lemma AllExpiredGoneIff(db: Db, cutoff: int)
    requires Integrity(db)
    ensures (forall k :: k in Swept(db, cutoff, |TARGETS|) ==> !Expired(db[k], cutoff)) <==> DependentsExpired(db, cutoff)
    ensures DependentsExpired(db, cutoff) ==> forall m :: !Refused(db, cutoff, m)
  {
    var db' := Swept(db, cutoff, |TARGETS|);
    if DependentsExpired(db, cutoff) {
      forall m ensures !Refused(db, cutoff, m) {
        CleanTableNotRefused(db, cutoff, m);
      }
      forall k | k in db' ensures !Expired(db[k], cutoff) {
        RunRemovesExactly(db, cutoff, k);
      }
    } else {
      var k, f: Fk :| k in db && f in db[k].refs && f.Required() && Target(db[k], f) in db
        && Expired(db[Target(db[k], f)], cutoff) && !Expired(db[k], cutoff);
      RunRemovesExactly(db, cutoff, k);
      RunChangesOnlyObjectiveReference(db, cutoff, k);
      RunKeepsIntegrity(db, cutoff);
      assert Target(db'[k], f) == Target(db[k], f);
      assert Target(db'[k], f) in db';
    }
  }
}
