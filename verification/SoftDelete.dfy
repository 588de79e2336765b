/**
 The Prisma middleware that turns deletion into a tombstone: it rewrites the parameters of each query in
 place, and the engine then runs the rewritten query on the table. The question is a commuting square:
 does forgetting tombstones after the rewritten query equal running the original query, which really
 deletes, on the table without tombstones? It does for every query, unless a tombstone is in the way of a
 write that a store without it would carry out: tombstones keep their unique values.
 */
module SoftDelete {
  import opened Prelude

  type Id = nat
  /** A column that is null is absent. */
  type Fields = map<string, string>

  datatype Row = Row(fields: Fields, deletedAt: Option<nat>)

  type Table = map<Id, Row>

  datatype ActionKind =
    | FindFirst | FindMany | FindUnique | FindUniqueOrThrow | FindFirstOrThrow | Count
    | Create | Update | UpdateMany | Delete | DeleteMany | Upsert
  {
    /** readActions */
    predicate Reads() {
      FindFirst? || FindMany? || FindUnique? || FindUniqueOrThrow? || FindFirstOrThrow? || Count?
    }
  }

  datatype DateFilter = IsNull | IsNotNull | Equals(at: nat)

  /** A conjunction: the row's id, column equalities, and a condition on deletedAt; None is undefined. */
  datatype Where = Where(id: Option<Id>, equals: Fields, deletedAt: Option<DateFilter>)

  /** Columns to write; `deletedAt` None leaves the column alone. */
  datatype Data = Data(fields: Fields, deletedAt: Option<Option<nat>>)

  datatype Args = Args(where: Option<Where>, data: Option<Data>, update: Option<Data>)

  /** `newId` is the UUID a create would generate. */
  datatype Query = Query(action: ActionKind, args: Option<Args>, newId: Id)

  const NO_WHERE: Where := Where(None, map[], None)
  const NO_ARGS: Args := Args(None, None, None)
  const NO_DATA: Data := Data(map[], None)

  function ArgsOf(q: Query): Args {
    match q.args case Some(a) => a case None => NO_ARGS
  }

  function WhereOf(q: Query): Where {
    match ArgsOf(q).where case Some(w) => w case None => NO_WHERE
  }

  function DataOf(d: Option<Data>): Data {
    match d case Some(x) => x case None => NO_DATA
  }

  // ---------------------------------------------------------------- the middleware

  const SOFT_DELETE_MODELS: set<string> := {
    "User", "UserSession", "Curriculum", "Chapter", "Section", "Topic", "LearningObjective", "Problem",
    "UserProblemAttempt", "UserProgress", "Achievement", "UserAchievement", "UserStats"}

  type Column = string

  /** A unique constraint is a set of columns. */
  type UniqueKeys = set<set<Column>>

  /** @unique and @@unique of the schema, besides the ids. */
  function SchemaKeys(model: string): UniqueKeys {
    if model == "User" then {{"googleId"}, {"email"}}
    else if model == "UserProgress" then {{"userId", "topicId"}}
    else if model == "Achievement" then {{"name"}}
    else if model == "UserAchievement" then {{"userId", "achievementId"}}
    else if model == "UserStats" then {{"userId"}}
    else {}
  }

  /** What a deletion writes instead. */
  function TombstoneData(now: nat): Data {
    Data(map[], Some(Some(now)))
  }

  function Rewritten(q: Query, now: nat): (r: Query)
    ensures r.action.Reads() <==> q.action.Reads()
  {
    if q.action.Reads() then
      var w := WhereOf(q);
      q.(args := Some(ArgsOf(q).(where := Some(if w.deletedAt.None? then w.(deletedAt := Some(IsNull)) else w))))
    else if q.action.Delete? then
      q.(action := Update, args := Some(ArgsOf(q).(data := Some(TombstoneData(now)))))
    else if q.action.DeleteMany? then
      q.(action := UpdateMany, args := Some(ArgsOf(q).(data := Some(TombstoneData(now)))))
    else q
  }

  /** A read that states its own condition on deletedAt keeps it; any other is limited to rows without a deletion date. */
  lemma OwnConditionIsKept(q: Query, now: nat)
    requires q.action in {FindFirst, FindMany, FindUnique, FindUniqueOrThrow, FindFirstOrThrow, Count}
    ensures var w, w' := WhereOf(q), WhereOf(Rewritten(q, now));
            && Rewritten(q, now).action == q.action && w'.id == w.id && w'.equals == w.equals
            && w'.deletedAt == if w.deletedAt.Some? then w.deletedAt else Some(IsNull)
  {
  }

  class MiddlewareParams {
    var model: Option<string>
    var action: ActionKind
    var args: Option<Args>
    const newId: Id

    constructor (m: Option<string>, q: Query)
      ensures model == m && AsQuery() == q
    {
      model, action, args, newId := m, q.action, q.args, q.newId;
    }

    function AsQuery(): Query
      reads this
    {
      Query(action, args, newId)
    }

    /** Prisma never calls delete without arguments; the source would throw there. */
    method Apply(now: nat)
      requires action == Delete ==> args.Some?
      modifies this`action, this`args
      ensures AsQuery() ==
                if model.Some? && model.value in SOFT_DELETE_MODELS then Rewritten(old(AsQuery()), now) else old(AsQuery())
    {
      if model.None? || model.value !in SOFT_DELETE_MODELS {
        return;
      }
      if action.Reads() {
        if args.None? {
          args := Some(NO_ARGS);
        }
        if args.value.where.None? {
          args := Some(args.value.(where := Some(NO_WHERE)));
        }
        if args.value.where.value.deletedAt.None? {
          args := Some(args.value.(where := Some(args.value.where.value.(deletedAt := Some(IsNull)))));
        }
      }
      if action == Delete {
        action := Update;
        args := Some(args.value.(data := Some(TombstoneData(now))));
      }
      if action == DeleteMany {
        action := UpdateMany;
        if args.None? {
          args := Some(NO_ARGS);
        }
        args := Some(args.value.(data := Some(TombstoneData(now))));
      }
    }
  }

  // ---------------------------------------------------------------- the engine

  predicate DateMatches(f: DateFilter, at: Option<nat>) {
    match f
    case IsNull => at.None?
    case IsNotNull => at.Some?
    case Equals(t) => at == Some(t)
  }

  predicate Matches(id: Id, row: Row, w: Where) {
    && (w.id.Some? ==> id == w.id.value)
    && (forall c :: c in w.equals ==> c in row.fields && row.fields[c] == w.equals[c])
    && (w.deletedAt.Some? ==> DateMatches(w.deletedAt.value, row.deletedAt))
  }

  function Matching(t: Table, w: Where): Table {
    map id | id in t && Matches(id, t[id], w) :: t[id]
  }

  function Written(row: Row, d: Data): (written: Row)
    ensures d.deletedAt.None? ==> written.deletedAt == row.deletedAt
  {
    Row(row.fields + d.fields, match d.deletedAt case Some(at) => at case None => row.deletedAt)
  }

  /** Both rows hold the whole key, with the same values; a null never collides. */
  predicate SameKey(key: set<Column>, f: Fields, g: Fields) {
    forall c :: c in key ==> c in f && c in g && f[c] == g[c]
  }

  predicate Collide(keys: UniqueKeys, f: Fields, g: Fields) {
    exists key :: key in keys && SameKey(key, f, g)
  }

  /** The unique indexes look at every row, tombstone or not. */
  predicate Unique(keys: UniqueKeys, t: Table) {
    forall a, b :: a in t && b in t && a != b ==> !Collide(keys, t[a].fields, t[b].fields)
  }

  datatype Answer =
    | Rows(rows: Table)                        // findMany
    | First(row: Option<(Id, Row)>)            // findFirst, findUnique
    | Number(n: nat)                           // count, updateMany, deleteMany
    | Affected(id: Id)                         // create, update, delete, upsert
    | Failed                                   // ...OrThrow without a match, unknown record, unique violation

  /** Which match comes first is the database's choice; the lowest id stands for it. */
  function FirstOf(t: Table): (r: Option<(Id, Row)>)
    ensures r.None? <==> t == map[]
    ensures r.Some? ==> r.value.0 in t && r.value.1 == t[r.value.0]
  {
    if t == map[] then None
    else
      LowestExists(t.Keys);
      var id :| id in t && forall j :: j in t ==> id <= j;
      Some((id, t[id]))
  }

  lemma LowestExists(ids: set<Id>)
    requires ids != {}
    ensures exists id :: id in ids && forall j :: j in ids ==> id <= j
  {
    var x :| x in ids;
    if y :| y in ids && y < x {
      var below := set j | j in ids && j < x;
      assert y in below && x !in below;
      LowestExists(below);
      var id :| id in below && forall j :: j in below ==> id <= j;
      forall j | j in ids ensures id <= j {
        if j < x { assert j in below; }
      }
    }
  }

  function UpdateAll(t: Table, hit: set<Id>, d: Data): Table {
    map id | id in t :: if id in hit then Written(t[id], d) else t[id]
  }

  /** An update overwrites the columns it names, in the rows it hits, and nothing else. */
  lemma UpdatedColumns(t: Table, hit: set<Id>, d: Data, id: Id, c: Column)
    requires id in t && d.deletedAt.None?
    ensures var row := UpdateAll(t, hit, d)[id];
            && row.deletedAt == t[id].deletedAt
            && if id in hit && c in d.fields then c in row.fields && row.fields[c] == d.fields[c]
               else (c in row.fields <==> c in t[id].fields) && (c in row.fields ==> row.fields[c] == t[id].fields[c])
  {
  }

  /** The condition names a record: by its id, or by all columns of a unique key. */
  predicate Names(keys: UniqueKeys, w: Where) {
    w.id.Some? || exists key :: key in keys && key <= w.equals.Keys
  }

  /** update, delete and upsert name one record; further conditions narrow it. */
  function UniqueHit(keys: UniqueKeys, t: Table, w: Where): (hit: Option<Id>)
    ensures hit.Some? ==> hit.value in Matching(t, w)
    ensures hit.None? ==> !Names(keys, w) || Matching(t, w) == map[]
  {
    if !Names(keys, w) then None
    else match FirstOf(Matching(t, w)) case Some(first) => Some(first.0) case None => None
  }

  function CreateIn(t: Table, id: Id, d: Data): (Table, Answer) {
    if id in t then (t, Failed) else (t[id := Written(Row(map[], None), d)], Affected(id))
  }

  function UpdateUnique(keys: UniqueKeys, t: Table, w: Where, d: Data): (Table, Answer) {
    match UniqueHit(keys, t, w)
    case None => (t, Failed)
    case Some(id) => (UpdateAll(t, {id}, d), Affected(id))
  }

  function DeleteUnique(keys: UniqueKeys, t: Table, w: Where): (Table, Answer) {
    match UniqueHit(keys, t, w)
    case None => (t, Failed)
    case Some(id) => (t - {id}, Affected(id))
  }

  function UpsertUnique(keys: UniqueKeys, t: Table, w: Where, newId: Id, create: Data, update: Data): (Table, Answer) {
    if UniqueHit(keys, t, w).Some? then UpdateUnique(keys, t, w, update) else CreateIn(t, newId, create)
  }

  function UpdateMatching(t: Table, w: Where, d: Data): (Table, Answer) {
    (UpdateAll(t, Matching(t, w).Keys, d), Number(|Matching(t, w)|))
  }

  function DeleteMatching(t: Table, w: Where): (Table, Answer) {
    (t - Matching(t, w).Keys, Number(|Matching(t, w)|))
  }

  function Read(t: Table, a: ActionKind, w: Where): Answer
    requires a.Reads()
  {
    var hits := Matching(t, w);
    match a
    case FindMany => Rows(hits)
    case Count => Number(|hits|)
    case FindFirst => First(FirstOf(hits))
    case FindUnique => First(FirstOf(hits))
    case FindFirstOrThrow => if hits == map[] then Failed else First(FirstOf(hits))
    case FindUniqueOrThrow => if hits == map[] then Failed else First(FirstOf(hits))
  }

  /** What the query would leave behind if no unique index refused it. */
  function Attempt(keys: UniqueKeys, t: Table, q: Query): (Table, Answer)
    requires !q.action.Reads()
  {
    var w, data := WhereOf(q), DataOf(ArgsOf(q).data);
    match q.action
    case Create => CreateIn(t, q.newId, data)
    case Update => UpdateUnique(keys, t, w, data)
    case UpdateMany => UpdateMatching(t, w, data)
    case Delete => DeleteUnique(keys, t, w)
    case DeleteMany => DeleteMatching(t, w)
    case Upsert => UpsertUnique(keys, t, w, q.newId, data, DataOf(ArgsOf(q).update))
  }

  /** Query execution without any middleware: delete and deleteMany remove rows; a violating statement does nothing. */
  function Exec(keys: UniqueKeys, t: Table, q: Query): (Table, Answer) {
    if q.action.Reads() then (t, Read(t, q.action, WhereOf(q)))
    else
      var (t', answer) := Attempt(keys, t, q);
      if Unique(keys, t') then (t', answer) else (t, Failed)
  }

  lemma ExecKeepsUnique(keys: UniqueKeys, t: Table, q: Query)
    requires Unique(keys, t)
    ensures Unique(keys, Exec(keys, t, q).0)
  {
    hide Unique, Attempt;
  }

  // ---------------------------------------------------------------- the two stores

  /** The table as a store that really deletes would hold it. */
  function Live(t: Table): Table {
    map id | id in t && t[id].deletedAt.None? :: t[id]
  }

  predicate Tombstone(t: Table, id: Id) {
    id in t && t[id].deletedAt.Some?
  }

  /** The query neither reads nor writes deletedAt. */
  predicate Oblivious(q: Query) {
    && WhereOf(q).deletedAt.None?
    && DataOf(ArgsOf(q).data).deletedAt.None?
    && DataOf(ArgsOf(q).update).deletedAt.None?
  }

  /** A generated id is new, also among the tombstones. */
  predicate FreshId(t: Table, q: Query) {
    q.action.Create? || q.action.Upsert? ==> q.newId !in t
  }

  /** The record that the query names is a tombstone. */
  predicate HitsTombstone(keys: UniqueKeys, t: Table, q: Query) {
    var hit := UniqueHit(keys, t, WhereOf(q));
    hit.Some? && Tombstone(t, hit.value)
  }

  /** Some tombstone shares the values of a unique key with another row. */
  predicate TombstoneCollides(keys: UniqueKeys, t: Table) {
    exists a, b :: a in t && b in t && a != b && Tombstone(t, a) && Collide(keys, t[a].fields, t[b].fields)
  }

  /** After the query a tombstone would share a unique value with another row. */
  predicate Taken(keys: UniqueKeys, t: Table, q: Query, now: nat)
    requires !q.action.Reads()
  {
    TombstoneCollides(keys, Attempt(keys, t, Rewritten(q, now)).0)
  }

  /** A store without the tombstones would carry the query out. */
  predicate PlainAccepts(keys: UniqueKeys, t: Table, q: Query)
    requires !q.action.Reads()
  {
    Unique(keys, Attempt(keys, Live(t), q).0)
  }

  predicate PlainChanges(keys: UniqueKeys, t: Table, q: Query)
    requires !q.action.Reads()
  {
    Attempt(keys, Live(t), q).0 != Live(t)
  }

  /**
   A store without tombstones would carry the write out and change something by it, but here a tombstone is
   in the way: it is the record an upsert names, or it holds a unique value that a row would get.
   */
  predicate Obstructed(keys: UniqueKeys, t: Table, q: Query, now: nat) {
    && !q.action.Reads()
    && PlainAccepts(keys, t, q) && PlainChanges(keys, t, q)
    && ((q.action.Upsert? && HitsTombstone(keys, t, q)) || Taken(keys, t, q, now))
  }

  // ---------------------------------------------------------------- tombstones and unique keys

  lemma CollideSymmetric(keys: UniqueKeys, f: Fields, g: Fields)
    ensures Collide(keys, f, g) <==> Collide(keys, g, f)
  {
    if key :| key in keys && SameKey(key, f, g) { assert SameKey(key, g, f); }
    if key :| key in keys && SameKey(key, g, f) { assert SameKey(key, f, g); }
  }

  /** A table is unique exactly when its live part is and no tombstone collides. */
  lemma UniqueSplits(keys: UniqueKeys, t: Table)
    ensures Unique(keys, t) <==> Unique(keys, Live(t)) && !TombstoneCollides(keys, t)
  {
    hide Collide;
    if Unique(keys, Live(t)) && !TombstoneCollides(keys, t) {
      forall a, b | a in t && b in t && a != b ensures !Collide(keys, t[a].fields, t[b].fields) {
        CollideSymmetric(keys, t[a].fields, t[b].fields);
        assert !Tombstone(t, a) && !Tombstone(t, b) ==> a in Live(t) && b in Live(t);
      }
    }
  }

  /** A condition that names a record matches at most one. */
  lemma AtMostOneMatch(keys: UniqueKeys, t: Table, w: Where, a: Id, b: Id)
    requires Unique(keys, t) && Names(keys, w) && a in Matching(t, w) && b in Matching(t, w)
    ensures a == b
  {
    if w.id.None? {
      var key :| key in keys && key <= w.equals.Keys;
      assert SameKey(key, t[a].fields, t[b].fields);
    }
  }

  lemma MatchingLive(t: Table, w: Where)
    requires w.deletedAt.None?
    ensures Matching(t, w.(deletedAt := Some(IsNull))) == Matching(Live(t), w) == Live(Matching(t, w))
  {
  }

  /** A tombstone is no target in the plain store; anything else is the same target. */
  lemma UniqueHitLive(keys: UniqueKeys, t: Table, w: Where)
    requires w.deletedAt.None? && Unique(keys, t)
    ensures var hit := UniqueHit(keys, t, w);
            && UniqueHit(keys, Live(t), w) == (if hit.Some? && !Tombstone(t, hit.value) then hit else None)
            && (hit.Some? ==> {hit.value} * Live(t).Keys == if Tombstone(t, hit.value) then {} else {hit.value})
  {
    MatchingLive(t, w);
    var hit, plain := UniqueHit(keys, t, w), UniqueHit(keys, Live(t), w);
    if hit.Some? && plain.Some? {
      AtMostOneMatch(keys, t, w, hit.value, plain.value);
    }
    if hit.Some? && !Tombstone(t, hit.value) { assert hit.value in Live(Matching(t, w)); }
    if plain.Some? { assert plain.value in Live(Matching(t, w)); }
  }

  // ---------------------------------------------------------------- refinement, unique indexes aside

  /** Reads answer exactly as if the tombstones were not there. */
  lemma ReadsIgnoreTombstones(keys: UniqueKeys, t: Table, q: Query, now: nat)
    requires q.action.Reads() && Oblivious(q)
    ensures Exec(keys, t, Rewritten(q, now)) == (t, Exec(keys, Live(t), q).1)
    ensures Exec(keys, Live(t), q).0 == Live(t)
  {
    MatchingLive(t, WhereOf(q));
    assert WhereOf(Rewritten(q, now)) == WhereOf(q).(deletedAt := Some(IsNull));
  }

  /** A read that asks for deleted rows sees exactly those, and one that asks for a date sees the rows with that date. */
  lemma ReadsOfTombstones(t: Table, w: Where, at: nat)
    ensures forall id :: id in Matching(t, w.(deletedAt := Some(IsNotNull))) <==>
              id in Matching(t, w.(deletedAt := None)) && t[id].deletedAt != None
    ensures forall id :: id in Matching(t, w.(deletedAt := Some(Equals(at)))) <==>
              id in Matching(t, w.(deletedAt := None)) && t[id].deletedAt == Some(at)
  {
  }

  lemma UpdatesRefine(t: Table, hit: set<Id>, d: Data)
    requires d.deletedAt.None?
    ensures Live(UpdateAll(t, hit, d)) == UpdateAll(Live(t), hit, d) == UpdateAll(Live(t), hit * Live(t).Keys, d)
  {
  }

  lemma TombstoningRefines(t: Table, hit: set<Id>, now: nat)
    ensures Live(UpdateAll(t, hit, TombstoneData(now))) == Live(t) - hit == Live(t) - hit * Live(t).Keys
  {
  }

  lemma NothingHit(t: Table, d: Data)
    ensures UpdateAll(t, {}, d) == t && t - {} == t
  {
  }

  lemma CreateRefines(t: Table, id: Id, d: Data)
    requires id !in t && d.deletedAt.None?
    ensures Live(CreateIn(t, id, d).0) == CreateIn(Live(t), id, d).0
  {
  }

  lemma MatchingKeysLive(t: Table, w: Where)
    requires w.deletedAt.None?
    ensures Matching(t, w).Keys * Live(t).Keys == Matching(Live(t), w).Keys
  {
  }

  lemma UpdateUniqueRefines(keys: UniqueKeys, t: Table, w: Where, d: Data)
    requires w.deletedAt.None? && d.deletedAt.None? && Unique(keys, t)
    ensures Live(UpdateUnique(keys, t, w, d).0) == UpdateUnique(keys, Live(t), w, d).0
  {
    UniqueHitLive(keys, t, w);
    NothingHit(Live(t), d);
    hide Live, UpdateAll, UniqueHit, Tombstone, Unique;
    var hit := UniqueHit(keys, t, w);
    if hit.Some? { UpdatesRefine(t, {hit.value}, d); }
  }

  lemma DeleteUniqueRefines(keys: UniqueKeys, t: Table, w: Where, now: nat)
    requires w.deletedAt.None? && Unique(keys, t)
    ensures Live(UpdateUnique(keys, t, w, TombstoneData(now)).0) == DeleteUnique(keys, Live(t), w).0
  {
    UniqueHitLive(keys, t, w);
    NothingHit(Live(t), NO_DATA);
    hide Live, UpdateAll, UniqueHit, Tombstone, Unique;
    var hit := UniqueHit(keys, t, w);
    if hit.Some? { TombstoningRefines(t, {hit.value}, now); }
  }

  lemma ManyRefine(t: Table, w: Where, d: Data, now: nat)
    requires w.deletedAt.None?
    ensures d.deletedAt.None? ==> Live(UpdateMatching(t, w, d).0) == UpdateMatching(Live(t), w, d).0
    ensures Live(UpdateMatching(t, w, TombstoneData(now)).0) == DeleteMatching(Live(t), w).0
  {
    MatchingKeysLive(t, w);
    hide Live, UpdateAll, Matching;
    TombstoningRefines(t, Matching(t, w).Keys, now);
    if d.deletedAt.None? { UpdatesRefine(t, Matching(t, w).Keys, d); }
  }

  /** Unique indexes aside, every write except an upsert that names a tombstone has the effect of the plain query. */
  lemma AttemptsRefine(keys: UniqueKeys, t: Table, q: Query, now: nat)
    requires !q.action.Reads() && Oblivious(q) && FreshId(t, q) && Unique(keys, t)
    requires q.action.Upsert? ==> !HitsTombstone(keys, t, q)
    ensures Live(Attempt(keys, t, Rewritten(q, now)).0) == Attempt(keys, Live(t), q).0
  {
    var w, data, update := WhereOf(q), DataOf(ArgsOf(q).data), DataOf(ArgsOf(q).update);
    UniqueHitLive(keys, t, w);
    hide Live, UpdateUnique, DeleteUnique, UpdateMatching, DeleteMatching, UniqueHit, CreateIn, Tombstone, Unique;
    match q.action {
      case Create => CreateRefines(t, q.newId, data);
      case Update => UpdateUniqueRefines(keys, t, w, data);
      case UpdateMany => ManyRefine(t, w, data, now);
      case Delete => DeleteUniqueRefines(keys, t, w, now);
      case DeleteMany => ManyRefine(t, w, data, now);
      case Upsert =>
        UpdateUniqueRefines(keys, t, w, update);
        if UniqueHit(keys, t, w).None? { CreateRefines(t, q.newId, data); }
    }
  }

  /** An upsert that names a tombstone changes only the tombstone, where the plain store creates a row. */
  lemma TombstoneUpserted(keys: UniqueKeys, t: Table, q: Query)
    requires q.action.Upsert? && Oblivious(q) && FreshId(t, q) && Unique(keys, t) && HitsTombstone(keys, t, q)
    ensures Live(Attempt(keys, t, q).0) == Live(t)
    ensures q.newId in Attempt(keys, Live(t), q).0 && q.newId !in Live(t)
  {
    var w := WhereOf(q);
    var hit := UniqueHit(keys, t, w);
    UniqueHitLive(keys, t, w);
    UpdatesRefine(t, {hit.value}, DataOf(ArgsOf(q).update));
    NothingHit(Live(t), DataOf(ArgsOf(q).update));
    hide UniqueHit, Unique;
  }

  // ---------------------------------------------------------------- when a write refines deletion

  /** Forgetting the tombstones after the rewritten query equals the plain query on the store without them. */
  predicate Refines(keys: UniqueKeys, t: Table, q: Query, now: nat) {
    Live(Exec(keys, t, Rewritten(q, now)).0) == Exec(keys, Live(t), q).0
  }

  /** The exact condition, for every write. */
  lemma WriteRefinesIff(keys: UniqueKeys, t: Table, q: Query, now: nat)
    requires !q.action.Reads() && Oblivious(q) && FreshId(t, q) && Unique(keys, t)
    ensures Refines(keys, t, q, now) <==> !Obstructed(keys, t, q, now)
  {
    var soft, plain := Attempt(keys, t, Rewritten(q, now)).0, Attempt(keys, Live(t), q).0;
    if q.action.Upsert? && HitsTombstone(keys, t, q) {
      TombstoneUpserted(keys, t, q);
    } else {
      AttemptsRefine(keys, t, q, now);
      UniqueSplits(keys, soft);
    }
    hide Live, Attempt, Unique, HitsTombstone, TombstoneCollides, Oblivious;
  }

  /** A tombstone shares a unique key with these columns. */
  predicate TombstoneHolds(keys: UniqueKeys, t: Table, f: Fields) {
    exists id :: id in t && Tombstone(t, id) && Collide(keys, t[id].fields, f)
  }

  /** The row that a create, an update or an upsert leaves in the plain store, if it writes one. */
  function WrittenRow(keys: UniqueKeys, t: Table, q: Query): Option<Row> {
    var data := DataOf(ArgsOf(q).data);
    var hit := UniqueHit(keys, Live(t), WhereOf(q));
    if q.action.Create? || (q.action.Upsert? && hit.None?) then Some(Written(Row(map[], None), data))
    else if hit.None? then None
    else Some(Written(Live(t)[hit.value], if q.action.Upsert? then DataOf(ArgsOf(q).update) else data))
  }

  /** One live row put into a unique table meets a tombstone exactly when a tombstone holds one of its keys. */
  lemma OneRowPut(keys: UniqueKeys, t: Table, id: Id, row: Row)
    requires Unique(keys, t) && row.deletedAt.None? && !Tombstone(t, id)
    ensures TombstoneCollides(keys, t[id := row]) <==> TombstoneHolds(keys, t, row.fields)
    ensures TombstoneHolds(keys, t, row.fields) && id in t ==> t[id] != row
  {
    hide Collide;
    var t' := t[id := row];
    if a, b :| a in t' && b in t' && a != b && Tombstone(t', a) && Collide(keys, t'[a].fields, t'[b].fields) {
      assert Tombstone(t, a);
    }
    if a :| a in t && Tombstone(t, a) && Collide(keys, t[a].fields, row.fields) {
      assert Tombstone(t', a) && t'[id] == row;
    }
  }

  /** Both stores put this live row under this id, where there is no tombstone. */
  predicate Puts(keys: UniqueKeys, t: Table, q: Query, id: Id, row: Row)
    requires !q.action.Reads()
  {
    && Attempt(keys, t, q).0 == t[id := row] && Attempt(keys, Live(t), q).0 == Live(t)[id := row]
    && !Tombstone(t, id) && row.deletedAt.None?
  }

  lemma NewRowIsPut(keys: UniqueKeys, t: Table, q: Query)
    requires q.action.Create? || (q.action.Upsert? && UniqueHit(keys, t, WhereOf(q)).None?)
    requires Oblivious(q) && FreshId(t, q) && Unique(keys, t)
    ensures Puts(keys, t, q, q.newId, Written(Row(map[], None), DataOf(ArgsOf(q).data)))
  {
    UniqueHitLive(keys, t, WhereOf(q));
    hide Unique, UniqueHit;
  }

  lemma OneRowUpdated(t: Table, id: Id, d: Data)
    requires id in t && !Tombstone(t, id)
    ensures UpdateAll(t, {id}, d) == t[id := Written(t[id], d)] && UpdateAll(Live(t), {id}, d) == Live(t)[id := Written(t[id], d)]
    ensures id in Live(t) && Live(t)[id] == t[id]
  {
  }

  lemma RecordIsUpdated(keys: UniqueKeys, t: Table, w: Where, d: Data, id: Id)
    requires w.deletedAt.None? && Unique(keys, t) && UniqueHit(keys, t, w) == Some(id) && !Tombstone(t, id)
    ensures id in t && id in Live(t) && Live(t)[id] == t[id] && UniqueHit(keys, Live(t), w) == Some(id)
    ensures UpdateUnique(keys, t, w, d).0 == t[id := Written(t[id], d)]
    ensures UpdateUnique(keys, Live(t), w, d).0 == Live(t)[id := Written(t[id], d)]
  {
    UniqueHitLive(keys, t, w);
    assert id in t && t[id].deletedAt.None?;
    OneRowUpdated(t, id, d);
    hide Unique, UniqueHit, Live, UpdateAll, Written, Matching;
  }

  lemma ChangedRowIsPut(keys: UniqueKeys, t: Table, q: Query, d: Data, id: Id)
    requires (q.action.Update? && d == DataOf(ArgsOf(q).data)) || (q.action.Upsert? && d == DataOf(ArgsOf(q).update))
    requires Oblivious(q) && Unique(keys, t) && UniqueHit(keys, t, WhereOf(q)) == Some(id) && !Tombstone(t, id)
    ensures id in t && Puts(keys, t, q, id, Written(t[id], d))
    ensures UniqueHit(keys, Live(t), WhereOf(q)) == Some(id) && id in Live(t) && Live(t)[id] == t[id]
  {
    hide Unique, UniqueHit, Live, UpdateUnique, Written;
    RecordIsUpdated(keys, t, WhereOf(q), d, id);
  }

  /** Such a write is obstructed exactly when a tombstone holds a unique value of its row. */
  lemma PutObstructedIff(keys: UniqueKeys, t: Table, q: Query, now: nat, id: Id, row: Row)
    requires q.action.Create? || q.action.Update? || (q.action.Upsert? && !HitsTombstone(keys, t, q))
    requires Unique(keys, t) && Puts(keys, t, q, id, row)
    ensures Obstructed(keys, t, q, now) <==> PlainAccepts(keys, t, q) && TombstoneHolds(keys, t, row.fields)
  {
    OneRowPut(keys, t, id, row);
    assert id in Live(t) ==> id in t && Live(t)[id] == t[id];
    assert id in t ==> id in Live(t);
    assert Rewritten(q, now) == q;
    hide Unique, Attempt, Live, TombstoneHolds, TombstoneCollides, HitsTombstone, Rewritten;
    assert Live(t)[id := row] == Live(t) ==> id in Live(t) && Live(t)[id] == row by {
      assert Live(t)[id := row][id] == row;
    }
  }

  /** For one record: the write is obstructed exactly when a tombstone holds the unique values it names or writes. */
  lemma ObstructedIff(keys: UniqueKeys, t: Table, q: Query, now: nat)
    requires q.action.Create? || q.action.Update? || q.action.Upsert?
    requires Oblivious(q) && FreshId(t, q) && Unique(keys, t)
    ensures var row := WrittenRow(keys, t, q);
            Obstructed(keys, t, q, now) <==>
              && PlainAccepts(keys, t, q)
              && ((q.action.Upsert? && HitsTombstone(keys, t, q)) || (row.Some? && TombstoneHolds(keys, t, row.value.fields)))
  {
    var hit := UniqueHit(keys, t, WhereOf(q));
    UniqueHitLive(keys, t, WhereOf(q));
    if q.action.Create? || (q.action.Upsert? && hit.None?) {
      NewRowIsPut(keys, t, q);
      PutObstructedIff(keys, t, q, now, q.newId, Written(Row(map[], None), DataOf(ArgsOf(q).data)));
      hide UniqueHit, Unique, TombstoneHolds, Obstructed, PlainAccepts, Puts, Written;
    } else if q.action.Upsert? && Tombstone(t, hit.value) {
      TombstoneUpserted(keys, t, q);
      hide Unique, Attempt, TombstoneHolds, TombstoneCollides, UniqueHit;
    } else if hit.Some? && !Tombstone(t, hit.value) {
      var d := if q.action.Update? then DataOf(ArgsOf(q).data) else DataOf(ArgsOf(q).update);
      ChangedRowIsPut(keys, t, q, d, hit.value);
      PutObstructedIff(keys, t, q, now, hit.value, Written(t[hit.value], d));
      hide UniqueHit, Unique, TombstoneHolds, Obstructed, PlainAccepts, Puts, Written;
    } else {
      hide UniqueHit, Unique, TombstoneCollides;
    }
  }

  /** Deleting is never obstructed: it writes no unique value. */
  lemma DeletionsAlwaysRefine(keys: UniqueKeys, t: Table, q: Query, now: nat)
    requires (q.action.Delete? || q.action.DeleteMany?) && Oblivious(q) && Unique(keys, t)
    ensures Refines(keys, t, q, now)
  {
    hide UniqueHit, Unique, TombstoneCollides, Refines, UpdateAll, Matching, Live;
    var hit := UniqueHit(keys, t, WhereOf(q));
    if hit.Some? { TombstoningKeepsUnique(keys, t, {hit.value}, now); }
    TombstoningKeepsUnique(keys, t, Matching(t, WhereOf(q)).Keys, now);
    var soft := Attempt(keys, t, Rewritten(q, now)).0;
    assert Unique(keys, soft);
    UniqueSplits(keys, soft);
    WriteRefinesIff(keys, t, q, now);
  }

  lemma TombstoningKeepsUnique(keys: UniqueKeys, t: Table, hit: set<Id>, now: nat)
    requires Unique(keys, t)
    ensures Unique(keys, UpdateAll(t, hit, TombstoneData(now)))
  {
  }

  function DeleteById(id: Id): Query {
    Query(Delete, Some(Args(Some(Where(Some(id), map[], None)), None, None)), 0)
  }

  function CreateWith(id: Id, f: Fields): Query {
    Query(Create, Some(Args(None, Some(Data(f, None)), None)), id)
  }

  /** The case in the source: an e-mail address whose account was soft-deleted cannot sign up again. */
  lemma DeletedEmailStaysTaken()
    ensures var keys := SchemaKeys("User");
            var row := Row(map["email" := "a"], None);
            var t := Exec(keys, map[1 := row], Rewritten(DeleteById(1), 5)).0;
            var signUp := CreateWith(2, map["email" := "a"]);
            && Exec(keys, t, Rewritten(signUp, 6)) == (t, Failed)
            && Exec(keys, Live(t), signUp) == (map[2 := row], Affected(2))
            && Obstructed(keys, t, signUp, 6)
  {
    DeletedKeyStaysTaken(SchemaKeys("User"), {"email"}, map["email" := "a"], 1, 5, 2, 6);
  }

  /** The same for every unique key: the values of a deleted row cannot be used again. */
  lemma DeletedKeyStaysTaken(keys: UniqueKeys, key: set<Column>, f: Fields, id: Id, deletedAt: nat, newId: Id, now: nat)
    requires key in keys && key <= f.Keys && id != newId
    ensures var row := Row(f, None);
            var t := Exec(keys, map[id := row], Rewritten(DeleteById(id), deletedAt)).0;
            var again := CreateWith(newId, f);
            && t == map[id := Row(f, Some(deletedAt))]
            && Exec(keys, t, Rewritten(again, now)) == (t, Failed)
            && Exec(keys, Live(t), again) == (map[newId := row], Affected(newId))
            && Obstructed(keys, t, again, now)
  {
    var row, dead := Row(f, None), Row(f, Some(deletedAt));
    OneRowDeleted(keys, id, row, deletedAt);
    SharedKeyCollides(keys, key, f);
    NewRowCollides(keys, id, dead, newId, row);
    CreatedAgain(keys, map[id := dead], newId, f);
    CreatedAgain(keys, map[], newId, f);
    assert Live(map[id := dead]) == map[];
    hide Unique, TombstoneCollides, UniqueHit, UpdateAll, UpdateUnique, Collide, Live, CreateIn;
  }

  /** The unique keys of the schema, each of which a deleted row keeps. */
  lemma KeysOfTheSchema()
    ensures SchemaKeys("User") == {{"googleId"}, {"email"}}
    ensures SchemaKeys("UserProgress") == {{"userId", "topicId"}} && SchemaKeys("UserAchievement") == {{"userId", "achievementId"}}
    ensures SchemaKeys("Achievement") == {{"name"}} && SchemaKeys("UserStats") == {{"userId"}}
  {
  }

  lemma CreatedAgain(keys: UniqueKeys, t: Table, id: Id, f: Fields)
    requires id !in t
    ensures Attempt(keys, t, CreateWith(id, f)) == (t[id := Row(f, None)], Affected(id))
  {
    assert map[] + f == f;
  }

  lemma OneRowDeleted(keys: UniqueKeys, id: Id, row: Row, now: nat)
    ensures var t: Table := map[id := row];
            var dead := row.(deletedAt := Some(now));
            UpdateUnique(keys, t, Where(Some(id), map[], None), TombstoneData(now)).0 == map[id := dead] && Unique(keys, map[id := dead])
  {
    var t: Table := map[id := row];
    assert id in Matching(t, Where(Some(id), map[], None));
    assert row.fields + map[] == row.fields;
  }

  lemma SharedKeyCollides(keys: UniqueKeys, key: set<Column>, f: Fields)
    requires key in keys && key <= f.Keys
    ensures Collide(keys, f, f)
  {
    assert SameKey(key, f, f);
  }

  lemma NewRowCollides(keys: UniqueKeys, a: Id, dead: Row, b: Id, row: Row)
    requires a != b && dead.deletedAt.Some? && row.deletedAt.None? && Collide(keys, dead.fields, row.fields)
    ensures var t: Table := map[a := dead, b := row];
            !Unique(keys, t) && TombstoneCollides(keys, t) && Unique(keys, map[b := row])
  {
    var t: Table := map[a := dead, b := row];
    assert a in t && b in t && t[a] == dead && t[b] == row && Tombstone(t, a);
  }

  // ---------------------------------------------------------------- answers

  /** A query is refused here exactly when the plain store refuses it too or a tombstone's unique value is in the way. */
  lemma RefusedIff(keys: UniqueKeys, t: Table, q: Query, now: nat)
    requires !q.action.Reads() && Oblivious(q) && FreshId(t, q) && Unique(keys, t)
    requires q.action.Upsert? ==> !HitsTombstone(keys, t, q)
    ensures Unique(keys, Attempt(keys, t, Rewritten(q, now)).0) <==> PlainAccepts(keys, t, q) && !Taken(keys, t, q, now)
  {
    AttemptsRefine(keys, t, q, now);
    UniqueSplits(keys, Attempt(keys, t, Rewritten(q, now)).0);
    hide *;
    assert Taken(keys, t, q, now) <==> TombstoneCollides(keys, Attempt(keys, t, Rewritten(q, now)).0) by { TakenIs(keys, t, q, now); }
    assert PlainAccepts(keys, t, q) <==> Unique(keys, Attempt(keys, Live(t), q).0) by { AcceptsIs(keys, t, q); }
  }

  lemma TakenIs(keys: UniqueKeys, t: Table, q: Query, now: nat)
    requires !q.action.Reads()
    ensures Taken(keys, t, q, now) <==> TombstoneCollides(keys, Attempt(keys, t, Rewritten(q, now)).0)
  {
  }

  lemma AcceptsIs(keys: UniqueKeys, t: Table, q: Query)
    requires !q.action.Reads()
    ensures PlainAccepts(keys, t, q) <==> Unique(keys, Attempt(keys, Live(t), q).0)
  {
  }

  lemma RecordHit(keys: UniqueKeys, t: Table, q: Query, now: nat)
    requires q.action.Update? || q.action.Delete? || q.action.Upsert?
    ensures var hit := UniqueHit(keys, t, WhereOf(q));
            if hit.Some? then Attempt(keys, t, q).1 == Attempt(keys, t, Rewritten(q, now)).1 == Affected(hit.value)
            else q.action.Upsert? || (Attempt(keys, t, q) == (t, Failed) && Attempt(keys, t, Rewritten(q, now)) == (t, Failed))
  {
    hide UniqueHit;
  }

  predicate MeetsTombstone(keys: UniqueKeys, t: Table, q: Query) {
    !q.action.Create? && HitsTombstone(keys, t, q)
  }

  /**
   Writes of one record answer like the plain store, except: they are refused for a tombstone's unique
   value, or they report success on a tombstone that the plain store does not have.
   */
  lemma UniqueWriteAnswersIff(keys: UniqueKeys, t: Table, q: Query, now: nat)
    requires q.action.Create? || q.action.Update? || q.action.Delete? || q.action.Upsert?
    requires Oblivious(q) && FreshId(t, q) && Unique(keys, t)
    ensures Exec(keys, t, Rewritten(q, now)).1 == Exec(keys, Live(t), q).1
            <==> if MeetsTombstone(keys, t, q) then Taken(keys, t, q, now) && (q.action.Upsert? ==> !PlainAccepts(keys, t, q))
                 else !(PlainAccepts(keys, t, q) && Taken(keys, t, q, now))
  {
    if MeetsTombstone(keys, t, q) {
      AnswerOnTombstone(keys, t, q, now);
    } else {
      AnswerElsewhere(keys, t, q, now);
    }
  }

  lemma AnswerOnTombstone(keys: UniqueKeys, t: Table, q: Query, now: nat)
    requires q.action.Update? || q.action.Delete? || q.action.Upsert?
    requires Oblivious(q) && FreshId(t, q) && Unique(keys, t) && HitsTombstone(keys, t, q)
    ensures Exec(keys, t, Rewritten(q, now)).1 == Exec(keys, Live(t), q).1
            <==> Taken(keys, t, q, now) && (q.action.Upsert? ==> !PlainAccepts(keys, t, q))
  {
    var soft := Attempt(keys, t, Rewritten(q, now)).0;
    UniqueHitLive(keys, t, WhereOf(q));
    RecordHit(keys, t, q, now);
    RecordHit(keys, Live(t), q, now);
    UniqueSplits(keys, t);
    UniqueSplits(keys, soft);
    if q.action.Upsert? { TombstoneUpserted(keys, t, q); } else { AttemptsRefine(keys, t, q, now); }
    assert Live(soft) == Live(t);
    hide Unique, Live, UniqueHit, TombstoneCollides, UpdateUnique, DeleteUnique;
  }

  lemma AnswerElsewhere(keys: UniqueKeys, t: Table, q: Query, now: nat)
    requires q.action.Create? || q.action.Update? || q.action.Delete? || q.action.Upsert?
    requires Oblivious(q) && FreshId(t, q) && Unique(keys, t) && !MeetsTombstone(keys, t, q)
    ensures Exec(keys, t, Rewritten(q, now)).1 == Exec(keys, Live(t), q).1
            <==> !(PlainAccepts(keys, t, q) && Taken(keys, t, q, now))
  {
    UniqueHitLive(keys, t, WhereOf(q));
    if !q.action.Create? {
      RecordHit(keys, t, q, now);
      RecordHit(keys, Live(t), q, now);
    }
    UniqueSplits(keys, t);
    RefusedIff(keys, t, q, now);
    hide Unique, UniqueHit, TombstoneCollides, UpdateUnique, DeleteUnique, HitsTombstone;
  }

  lemma SubmapSize(a: Table, b: Table)
    requires a.Keys <= b.Keys && forall id :: id in a ==> a[id] == b[id]
    ensures |a| == |b| <==> a == b
  {
    var rest := b.Keys - a.Keys;
    assert b.Keys == a.Keys + rest;
    assert |b.Keys| == |a.Keys| + |rest|;
    assert |a| == |a.Keys| && |b| == |b.Keys|;
    if a != b {
      var id :| id in b && id !in a;
      assert id in rest;
    }
  }

  /** updateMany and deleteMany count tombstones: their answer is right exactly when none matches and none is in the way. */
  lemma ManyWriteAnswersIff(keys: UniqueKeys, t: Table, q: Query, now: nat)
    requires (q.action.UpdateMany? || q.action.DeleteMany?) && Oblivious(q) && Unique(keys, t)
    ensures Exec(keys, t, Rewritten(q, now)).1 == Exec(keys, Live(t), q).1
            <==> (PlainAccepts(keys, t, q) ==>
                    !Taken(keys, t, q, now) && forall id :: id in Matching(t, WhereOf(q)) ==> !Tombstone(t, id))
  {
    RefusedIff(keys, t, q, now);
    ManyCounted(keys, t, q, now);
    hide Attempt, Unique, PlainAccepts, Taken, Matching, Tombstone, Rewritten;
    assert PlainAccepts(keys, t, q) <==> Unique(keys, Attempt(keys, Live(t), q).0) by { AcceptsIs(keys, t, q); }
  }

  /** Unique indexes aside, the two counts are equal exactly when no tombstone matches. */
  lemma ManyCounted(keys: UniqueKeys, t: Table, q: Query, now: nat)
    requires (q.action.UpdateMany? || q.action.DeleteMany?) && Oblivious(q)
    ensures var soft, plain := Attempt(keys, t, Rewritten(q, now)).1, Attempt(keys, Live(t), q).1;
            && soft.Number? && plain.Number?
            && (soft == plain <==> forall id :: id in Matching(t, WhereOf(q)) ==> !Tombstone(t, id))
  {
    var w := WhereOf(q);
    var all := Matching(t, w);
    MatchingLive(t, w);
    SubmapSize(Live(all), all);
    assert Live(all) == all <==> forall id :: id in all ==> !Tombstone(t, id);
    hide Matching, Live, UpdateAll;
    assert WhereOf(Rewritten(q, now)) == w;
  }

  // ---------------------------------------------------------------- runs

  /** A query and the time the middleware reads when it handles it. */
  datatype Call = Call(query: Query, now: nat)

  function RunSoft(keys: UniqueKeys, t: Table, calls: seq<Call>): Table
    decreases |calls|
  {
    if calls == [] then t
    else
      var last := calls[|calls| - 1];
      Exec(keys, RunSoft(keys, t, calls[..|calls| - 1]), Rewritten(last.query, last.now)).0
  }

  function RunPlain(keys: UniqueKeys, t: Table, calls: seq<Call>): Table
    decreases |calls|
  {
    if calls == [] then t else Exec(keys, RunPlain(keys, t, calls[..|calls| - 1]), calls[|calls| - 1].query).0
  }

  /** No query of the run mentions deletedAt, and generated ids are new. */
  predicate WellFormed(keys: UniqueKeys, t: Table, calls: seq<Call>) {
    forall i :: 0 <= i < |calls| ==> Oblivious(calls[i].query) && FreshId(RunSoft(keys, t, calls[..i]), calls[i].query)
  }

  /** The query at this position meets a tombstone that is in its way. */
  predicate ObstructedAt(keys: UniqueKeys, t: Table, calls: seq<Call>, i: nat)
    requires i < |calls|
  {
    Obstructed(keys, RunSoft(keys, t, calls[..i]), calls[i].query, calls[i].now)
  }

  /** Forgetting the tombstones of the one store gives the other. */
  predicate Agree(keys: UniqueKeys, t: Table, calls: seq<Call>) {
    Live(RunSoft(keys, t, calls)) == RunPlain(keys, Live(t), calls)
  }

  lemma {:induction false} RunKeepsUnique(keys: UniqueKeys, t: Table, calls: seq<Call>)
    requires Unique(keys, t)
    ensures Unique(keys, RunSoft(keys, t, calls))
    decreases |calls|
  {
    hide Unique, Exec, Rewritten;
    if calls != [] {
      var last := calls[|calls| - 1];
      RunKeepsUnique(keys, t, calls[..|calls| - 1]);
      ExecKeepsUnique(keys, RunSoft(keys, t, calls[..|calls| - 1]), Rewritten(last.query, last.now));
    }
  }

  /** From agreeing stores, one more query keeps them in agreement exactly when it is not obstructed. */
  lemma NextAgreesIff(keys: UniqueKeys, t: Table, calls: seq<Call>)
    requires Unique(keys, t) && calls != [] && WellFormed(keys, t, calls) && Agree(keys, t, calls[..|calls| - 1])
    ensures Agree(keys, t, calls) <==> !ObstructedAt(keys, t, calls, |calls| - 1)
  {
    var n := |calls| - 1;
    var s, q, now := RunSoft(keys, t, calls[..n]), calls[n].query, calls[n].now;
    assert Oblivious(q) && FreshId(s, q);
    RunKeepsUnique(keys, t, calls[..n]);
    if q.action.Reads() {
      ReadsIgnoreTombstones(keys, s, q, now);
    } else {
      WriteRefinesIff(keys, s, q, now);
    }
    hide Unique, Exec, Live, Rewritten, Oblivious, FreshId, PlainAccepts, PlainChanges, Taken, HitsTombstone;
  }

  /**
   Over a whole run, after every query what the soft-deleting store shows is what a store that really removes
   rows holds, if and only if no write of the run met a tombstone in its way.
   */
  lemma {:induction false} RunRefinesIff(keys: UniqueKeys, t: Table, calls: seq<Call>)
    requires Unique(keys, t) && WellFormed(keys, t, calls)
    ensures (forall n :: 0 <= n <= |calls| ==> Agree(keys, t, calls[..n]))
            <==> (forall i :: 0 <= i < |calls| ==> !ObstructedAt(keys, t, calls, i))
    decreases |calls|
  {
    hide Unique, Exec, Live, Obstructed, Oblivious, FreshId, Rewritten, RunSoft, RunPlain;
    assert Agree(keys, t, []) by { EmptyRunAgrees(keys, t); }
    assert calls[..|calls|] == calls;
    if calls == [] {
      assert calls[..0] == [];
    } else {
      var n := |calls| - 1;
      var before := calls[..n];
      forall i | 0 <= i <= n ensures before[..i] == calls[..i] {
      }
      assert WellFormed(keys, t, before);
      RunRefinesIff(keys, t, before);
      assert forall i :: 0 <= i < n ==> (ObstructedAt(keys, t, before, i) <==> ObstructedAt(keys, t, calls, i));
      if Agree(keys, t, before) { NextAgreesIff(keys, t, calls); }
      assert before[..n] == before;
    }
  }

  lemma EmptyRunAgrees(keys: UniqueKeys, t: Table)
    ensures Agree(keys, t, [])
  {
  }

  /** After an unobstructed run every read answers as on a store that really removes rows. */
  lemma RunsRefineDeletion(keys: UniqueKeys, t: Table, calls: seq<Call>, read: Query, now: nat)
    requires Unique(keys, t) && WellFormed(keys, t, calls) && read.action.Reads() && Oblivious(read)
    requires forall i :: 0 <= i < |calls| ==> !ObstructedAt(keys, t, calls, i)
    ensures Exec(keys, RunSoft(keys, t, calls), Rewritten(read, now)).1 == Exec(keys, RunPlain(keys, Live(t), calls), read).1
  {
    RunRefinesIff(keys, t, calls);
    assert calls[..|calls|] == calls && Agree(keys, t, calls);
    ReadsIgnoreTombstones(keys, RunSoft(keys, t, calls), read, now);
    hide Unique, Exec, Live, Obstructed, Oblivious, FreshId, Rewritten, RunSoft, RunPlain;
  }
}
