/**
 CurriculumService over its repository and its Redis cache, one completed call at a time. Every method
 keeps the cache coherent: a live entry is what the repository would answer now.
 */
module CurriculumService {
  import opened Prelude
  import opened Redis
  import opened CurriculumTree

  const CURRICULUM_TTL: nat := 86400
  const CURRICULUM_LIST_TTL: nat := 86400

  type TreeCache = Store<Id, Tree>
  type ListCache = Store<(int, int), seq<Listed>>

  datatype Error = NotFound

  // ---------------------------------------------------------------- input data

  datatype CurriculumPatch = CurriculumPatch(
    name: Option<string>, grade: Option<int>, semester: Option<int>, subject: Option<string>, orderIndex: Option<int>)

  datatype NodePatch = NodePatch(name: Option<string>, orderIndex: Option<int>)

  datatype ObjectivePatch = ObjectivePatch(description: Option<string>, bloomLevel: Option<string>)

  function Or<T>(patch: Option<T>, current: T): T {
    match patch case Some(v) => v case None => current
  }

  /** Rows of one table all carry that table's kind of content. */
  predicate WellTyped(t: Tables) {
    forall r :: r in t ==>
      match r.level
      case Curriculum => t[r].content.CurriculumContent?
      case Objective => t[r].content.ObjectiveContent?
      case _ => t[r].content.NodeContent?
  }

  function PatchedCurriculum(row: Row, p: CurriculumPatch, now: nat): Row
    requires row.content.CurriculumContent?
  {
    var c := row.content;
    row.(content := CurriculumContent(Or(p.name, c.name), Or(p.grade, c.grade), Or(p.semester, c.semester),
                                      Or(p.subject, c.subject), Or(p.orderIndex, c.orderIndex)),
         updatedAt := now)
  }

  function PatchedNode(row: Row, p: NodePatch, now: nat): Row
    requires row.content.NodeContent?
  {
    row.(content := NodeContent(Or(p.name, row.content.name), Or(p.orderIndex, row.content.orderIndex)), updatedAt := now)
  }

  function PatchedObjective(row: Row, p: ObjectivePatch, now: nat): Row
    requires row.content.ObjectiveContent?
  {
    row.(content := ObjectiveContent(Or(p.description, row.content.description), Or(p.bloomLevel, row.content.bloomLevel)),
         updatedAt := now)
  }

  /** softDelete*: only the tombstone (and the automatic updatedAt) change. */
  function Tombstoned(row: Row, now: nat): Row {
    row.(deletedAt := Some(now), updatedAt := now)
  }

  /** A written column: the patched value, or else what it was. */
  predicate Took<T(==)>(patch: Option<T>, was: T, got: T) {
    (patch.Some? ==> got == patch.value) && (patch.None? ==> got == was)
  }

  predicate SameRow(was: Row, got: Row, now: nat) {
    got.parent == was.parent && got.deletedAt == was.deletedAt && got.updatedAt == now
  }

  /** What an update leaves in each column. */
  predicate CurriculumTook(was: Row, p: CurriculumPatch, got: Row, now: nat)
    requires was.content.CurriculumContent?
  {
    && SameRow(was, got, now) && got.content.CurriculumContent?
    && Took(p.name, was.content.name, got.content.name) && Took(p.grade, was.content.grade, got.content.grade)
    && Took(p.semester, was.content.semester, got.content.semester) && Took(p.subject, was.content.subject, got.content.subject)
    && Took(p.orderIndex, was.content.orderIndex, got.content.orderIndex)
  }

  predicate NodeTook(was: Row, p: NodePatch, got: Row, now: nat)
    requires was.content.NodeContent?
  {
    && SameRow(was, got, now) && got.content.NodeContent?
    && Took(p.name, was.content.name, got.content.name) && Took(p.orderIndex, was.content.orderIndex, got.content.orderIndex)
  }

  predicate ObjectiveTook(was: Row, p: ObjectivePatch, got: Row, now: nat)
    requires was.content.ObjectiveContent?
  {
    && SameRow(was, got, now) && got.content.ObjectiveContent?
    && Took(p.description, was.content.description, got.content.description)
    && Took(p.bloomLevel, was.content.bloomLevel, got.content.bloomLevel)
  }

  // ---------------------------------------------------------------- coherence

  /** The filter a list key stands for: the key writes an absent filter as 0. */
  function KeyFilter(k: int): Option<int> {
    if k == 0 then None else Some(k)
  }

  function FilterKey(f: Option<int>): int {
    match f case Some(v) => v case None => 0
  }

  ghost predicate TreesCoherent(t: Tables, trees: TreeCache, now: nat) {
    forall id :: Live(trees, id, now) ==> FindTree(t, id) == Some(trees[id].value)
  }

  ghost predicate ListsCoherent(t: Tables, lists: ListCache, now: nat) {
    forall k :: Live(lists, k, now) ==> lists[k].value == ListQuery(t, KeyFilter(k.0), KeyFilter(k.1))
  }

  /** findCurriculumList as one step: the answer and the list cache afterwards. */
  function ListStep(t: Tables, lists: ListCache, now: nat, grade: Option<int>, semester: Option<int>): (seq<Listed>, ListCache) {
    var key := (FilterKey(grade), FilterKey(semester));
    match Get(lists, key, now)
    case Some(cached) => (cached, lists)
    case None =>
      var list := ListQuery(t, grade, semester);
      (list, SetEx(lists, key, list, now, CURRICULUM_LIST_TTL))
  }

  /** On every coherent cache the call answers the filtered query and leaves the cache coherent. */
  ghost predicate AlwaysRight(grade: Option<int>, semester: Option<int>) {
    forall t: Tables, lists: ListCache, now: nat ::
      ListsCoherent(t, lists, now) ==>
        var step := ListStep(t, lists, now, grade, semester);
        step.0 == ListQuery(t, grade, semester) && ListsCoherent(t, step.1, now)
  }

  lemma ListStepRight(t: Tables, lists: ListCache, now: nat, grade: Option<int>, semester: Option<int>)
    requires grade != Some(0) && semester != Some(0) && ListsCoherent(t, lists, now)
    ensures var step := ListStep(t, lists, now, grade, semester);
            step.0 == ListQuery(t, grade, semester) && ListsCoherent(t, step.1, now)
  {
    assert KeyFilter(FilterKey(grade)) == grade && KeyFilter(FilterKey(semester)) == semester;
  }

  /** A curriculum that passes the absent filter but not the filter 0. */
  lemma ZeroFilterPoisons(grade: Option<int>, semester: Option<int>)
    requires grade == Some(0) || semester == Some(0)
    ensures !AlwaysRight(grade, semester)
  {
    var g := if grade.Some? && grade.value != 0 then grade.value else 1;
    var s := if semester.Some? && semester.value != 0 then semester.value else 1;
    var row := Row(0, CurriculumContent("a", g, s, "b", 0), 0, None);
    var t: Tables := map[Ref(Curriculum, 7) := row];
    var lists: ListCache := map[];
    var key := (FilterKey(grade), FilterKey(semester));
    var step := ListStep(t, lists, 0, grade, semester);
    var wide := ListQuery(t, KeyFilter(key.0), KeyFilter(key.1));
    assert IsListed(t, Listed(7, row), KeyFilter(key.0), KeyFilter(key.1));
    assert Listed(7, row) in wide;
    assert !IsListed(t, Listed(7, row), grade, semester);
    assert step.1[key].value == ListQuery(t, grade, semester) != wide;
    assert Live(step.1, key, 0);
    assert ListsCoherent(t, lists, 0) && !ListsCoherent(t, step.1, 0);
  }

  /** The shared key is harmless exactly when no filter is 0. */
  lemma ListRightIffNoZeroFilter(grade: Option<int>, semester: Option<int>)
    ensures AlwaysRight(grade, semester) <==> grade != Some(0) && semester != Some(0)
  {
    if grade == Some(0) || semester == Some(0) {
      ZeroFilterPoisons(grade, semester);
    } else {
      forall t: Tables, lists: ListCache, now: nat | ListsCoherent(t, lists, now)
        ensures var step := ListStep(t, lists, now, grade, semester);
                step.0 == ListQuery(t, grade, semester) && ListsCoherent(t, step.1, now)
      {
        ListStepRight(t, lists, now, grade, semester);
      }
    }
  }

  /** The cache keys named by a walk. */
  function Named(w: Option<Id>): set<Id> {
    match w case Some(id) => {id} case None => {}
  }

  /** After a write below the curriculum level, dropping the walked tree (if any) restores coherence. */
  lemma LowerWriteCoherent(t: Tables, trees: TreeCache, lists: ListCache, now: nat, r: Ref, row: Row, dropped: Option<Id>)
    requires TreesCoherent(t, trees, now) && ListsCoherent(t, lists, now)
    requires r.level != Curriculum && KeepsParent(t, r, row)
    requires r.level == Chapter ==> dropped == Some(row.parent)
    requires r.level != Chapter ==> dropped == Walk(t, Ref(r.level.Up(), row.parent))
    ensures ListsCoherent(t[r := row], lists, now)
    ensures TreesCoherent(t[r := row], trees - Named(dropped), now)
  {
    forall id | Live(trees, id, now) && dropped != Some(id)
      ensures FindTree(t[r := row], id) == Some(trees[id].value)
    {
      if FindTree(t[r := row], id) != FindTree(t, id) {
        WriteAffectsOnlyWalkedTree(t, r, row, id);
      }
    }
    forall k | Live(lists, k, now)
      ensures lists[k].value == ListQuery(t[r := row], KeyFilter(k.0), KeyFilter(k.1))
    {
      LowerWriteKeepsLists(t, r, row, KeyFilter(k.0), KeyFilter(k.1));
    }
  }

  lemma CurriculumWriteCoherent(t: Tables, trees: TreeCache, now: nat, id: Id, row: Row)
    requires TreesCoherent(t, trees, now) && KeepsParent(t, Ref(Curriculum, id), row)
    ensures TreesCoherent(t[Ref(Curriculum, id) := row], trees - {id}, now)
  {
    forall other | Live(trees, other, now) && other != id
      ensures FindTree(t[Ref(Curriculum, id) := row], other) == Some(trees[other].value)
    {
      CurriculumWriteAffectsOnlyItself(t, id, row, other);
    }
  }

  lemma NewCurriculumCoherent(t: Tables, trees: TreeCache, now: nat, id: Id, row: Row)
    requires TreesCoherent(t, trees, now) && Ref(Curriculum, id) !in t
    ensures TreesCoherent(t[Ref(Curriculum, id) := row], trees, now)
  {
    CurriculumWriteCoherent(t, trees, now, id, row);
    assert FindTree(t, id).None?;
    assert forall other :: Live(trees, other, now) ==> other != id && Live(trees - {id}, other, now);
  }

  lemma NoLiveListsCoherent(t: Tables, lists: ListCache, now: nat)
    requires Keys(lists, now) == {}
    ensures ListsCoherent(t, lists, now)
  {
    assert forall k :: Live(lists, k, now) ==> k in Keys(lists, now);
  }

  class CurriculumService {
    var tables: Tables
    var trees: TreeCache
    var lists: ListCache
    var now: nat

    ghost predicate Valid()
      reads this
    {
      WellTyped(tables) && TreesCoherent(tables, trees, now) && ListsCoherent(tables, lists, now)
    }

    constructor (rows: Tables, start: nat)
      requires WellTyped(rows)
      ensures Valid() && tables == rows && now == start
    {
      tables, trees, lists, now := rows, map[], map[], start;
    }

    method Advance(seconds: nat)
      requires Valid()
      modifies this`now
      ensures Valid() && now == old(now) + seconds
    {
      now := now + seconds;
    }

    /** One row written, and the cache of the curriculum it was traced to (if any) dropped with every list. */
    twostate predicate Wrote(new r: Ref, new row: Row, new traced: Option<Id>)
      reads this
    {
      && tables == old(tables)[r := row]
      && trees == old(trees) - Named(traced)
      && lists == if traced.Some? then old(lists) - Keys(old(lists), now) else old(lists)
    }

    // -------------------------------------------------------------- invalidation

    method InvalidateListCache()
      modifies this`lists
      ensures Keys(lists, now) == {}
      ensures lists == old(lists) - Keys(old(lists), now)
    {
      var keys := Keys(lists, now);
      if |keys| > 0 {
        lists := lists - keys;
      }
    }

    method InvalidateCurriculumCache(curriculumId: Id)
      modifies this`trees, this`lists
      ensures trees == old(trees) - {curriculumId}
      ensures Keys(lists, now) == {} && lists == old(lists) - Keys(old(lists), now)
    {
      trees := trees - {curriculumId};
      InvalidateListCache();
    }

    /** The lookups of updateSection, deleteSection and createTopic: chapter, then its curriculum. */
    method InvalidateFromChapter(chapterId: Id)
      modifies this`trees, this`lists
      ensures var w := Walk(tables, Ref(Chapter, chapterId));
              && trees == old(trees) - Named(w)
              && lists == (if w.Some? then old(lists) - Keys(old(lists), now) else old(lists))
    {
      var chapter := Ref(Chapter, chapterId);
      if Visible(tables, chapter) {
        InvalidateCurriculumCache(tables[chapter].parent);
      }
    }

    method InvalidateTopicParentCache(sectionId: Id)
      modifies this`trees, this`lists
      ensures var w := Walk(tables, Ref(Section, sectionId));
              && trees == old(trees) - Named(w)
              && lists == (if w.Some? then old(lists) - Keys(old(lists), now) else old(lists))
    {
      var section := Ref(Section, sectionId);
      if Visible(tables, section) {
        InvalidateFromChapter(tables[section].parent);
      }
    }

    /** The lookup of updateObjective and deleteObjective before they invalidate the topic's ancestors. */
    method InvalidateFromTopic(topicId: Id)
      modifies this`trees, this`lists
      ensures var w := Walk(tables, Ref(Topic, topicId));
              && trees == old(trees) - Named(w)
              && lists == (if w.Some? then old(lists) - Keys(old(lists), now) else old(lists))
    {
      var topic := Ref(Topic, topicId);
      if Visible(tables, topic) {
        InvalidateTopicParentCache(tables[topic].parent);
      }
    }

    // -------------------------------------------------------------- queries

    method FindCurriculumList(grade: Option<int>, semester: Option<int>) returns (list: seq<Listed>)
      requires Valid()
      modifies this`lists
      ensures (list, lists) == ListStep(tables, old(lists), now, grade, semester)
      ensures grade != Some(0) && semester != Some(0) ==> Valid() && list == ListQuery(tables, grade, semester)
      ensures var key := (FilterKey(grade), FilterKey(semester));
              !Live(old(lists), key, now) ==> key in lists && lists[key].expiresAt == Some(now + 24 * 60 * 60)
    {
      ListRightIffNoZeroFilter(grade, semester);
      var key := (FilterKey(grade), FilterKey(semester));
      var cached := Get(lists, key, now);
      if cached.Some? {
        return cached.value;
      }
      list := ListQuery(tables, grade, semester);
      lists := SetEx(lists, key, list, now, CURRICULUM_LIST_TTL);
    }

    method FindCurriculumById(id: Id) returns (r: Result<Tree, Error>)
      requires Valid()
      modifies this`trees
      ensures Valid()
      ensures r == match FindTree(tables, id) case Some(tree) => Ok(tree) case None => Err(NotFound)
      ensures r.Ok? ==> Live(trees, id, now)
      ensures r.Ok? && !Live(old(trees), id, now) ==> trees[id].expiresAt == Some(now + 24 * 60 * 60)
      ensures forall other :: other != id ==> Get(trees, other, now) == Get(old(trees), other, now)
    {
      hide FindTree, WellTyped, ListQuery;
      var cached := Get(trees, id, now);
      if cached.Some? {
        return Ok(cached.value);
      }
      var curriculum := FindTree(tables, id);
      if curriculum.None? {
        return Err(NotFound);
      }
      trees := SetEx(trees, id, curriculum.value, now, CURRICULUM_TTL);
      return Ok(curriculum.value);
    }

    // -------------------------------------------------------------- curriculum

    method CreateCurriculum(newId: Id, content: Content) returns (row: Row)
      requires Valid() && Ref(Curriculum, newId) !in tables && content.CurriculumContent?
      modifies this`tables, this`lists
      ensures Valid() && row == Row(0, content, now, None)
      ensures tables == old(tables)[Ref(Curriculum, newId) := row]
      ensures lists == old(lists) - Keys(old(lists), now)
    {
      row := Row(0, content, now, None);
      NewCurriculumCoherent(tables, trees, now, newId, row);
      tables := tables[Ref(Curriculum, newId) := row];
      InvalidateListCache();
      NoLiveListsCoherent(tables, lists, now);
    }

    method UpdateCurriculum(id: Id, patch: CurriculumPatch) returns (r: Result<Row, Error>)
      requires Valid()
      modifies this`tables, this`trees, this`lists
      ensures Valid()
      ensures var c := Ref(Curriculum, id);
              if Visible(old(tables), c) then
                r == Ok(PatchedCurriculum(old(tables)[c], patch, now)) && Wrote(c, r.value, Some(id))
              else r == Err(NotFound) && unchanged(this)
      ensures r.Ok? ==> CurriculumTook(old(tables)[Ref(Curriculum, id)], patch, r.value, now) && r.value == tables[Ref(Curriculum, id)]
    {
      var c := Ref(Curriculum, id);
      if !Visible(tables, c) {
        return Err(NotFound);
      }
      var updated := PatchedCurriculum(tables[c], patch, now);
      CurriculumWriteCoherent(tables, trees, now, id, updated);
      tables := tables[c := updated];
      InvalidateCurriculumCache(id);
      NoLiveListsCoherent(tables, lists, now);
      return Ok(updated);
    }

    method DeleteCurriculum(id: Id) returns (r: Result<Row, Error>)
      requires Valid()
      modifies this`tables, this`trees, this`lists
      ensures Valid()
      ensures var c := Ref(Curriculum, id);
              if Visible(old(tables), c) then
                r == Ok(Tombstoned(old(tables)[c], now)) && Wrote(c, r.value, Some(id))
              else r == Err(NotFound) && unchanged(this)
      ensures r.Ok? ==> Vanished(old(tables), tables, Ref(Curriculum, id)) && r.value == tables[Ref(Curriculum, id)]
    {
      var c := Ref(Curriculum, id);
      if !Visible(tables, c) {
        return Err(NotFound);
      }
      var deleted := Tombstoned(tables[c], now);
      CurriculumWriteCoherent(tables, trees, now, id, deleted);
      TombstoneVanishes(tables, Ref(Curriculum, id), deleted);
      tables := tables[c := deleted];
      InvalidateCurriculumCache(id);
      NoLiveListsCoherent(tables, lists, now);
      return Ok(deleted);
    }

    // -------------------------------------------------------------- chapter

    method CreateChapter(curriculumId: Id, newId: Id, content: Content) returns (r: Result<Row, Error>)
      requires Valid() && Ref(Chapter, newId) !in tables && content.NodeContent?
      modifies this`tables, this`trees, this`lists
      ensures Valid()
      ensures if Visible(old(tables), Ref(Curriculum, curriculumId)) then
                r == Ok(Row(curriculumId, content, now, None)) && Wrote(Ref(Chapter, newId), r.value, Some(curriculumId))
              else r == Err(NotFound) && unchanged(this)
    {
      if !Visible(tables, Ref(Curriculum, curriculumId)) {
        return Err(NotFound);
      }
      var row := Row(curriculumId, content, now, None);
      LowerWriteCoherent(tables, trees, lists, now, Ref(Chapter, newId), row, Some(curriculumId));
      tables := tables[Ref(Chapter, newId) := row];
      InvalidateCurriculumCache(curriculumId);
      return Ok(row);
    }

    method UpdateChapter(id: Id, patch: NodePatch) returns (r: Result<Row, Error>)
      requires Valid()
      modifies this`tables, this`trees, this`lists
      ensures Valid()
      ensures var c := Ref(Chapter, id);
              if Visible(old(tables), c) then
                r == Ok(PatchedNode(old(tables)[c], patch, now)) && Wrote(c, r.value, Some(old(tables)[c].parent))
              else r == Err(NotFound) && unchanged(this)
      ensures r.Ok? ==> NodeTook(old(tables)[Ref(Chapter, id)], patch, r.value, now) && r.value == tables[Ref(Chapter, id)]
    {
      var c := Ref(Chapter, id);
      if !Visible(tables, c) {
        return Err(NotFound);
      }
      var existing := tables[c];
      var updated := PatchedNode(existing, patch, now);
      LowerWriteCoherent(tables, trees, lists, now, c, updated, Some(existing.parent));
      tables := tables[c := updated];
      InvalidateCurriculumCache(existing.parent);
      return Ok(updated);
    }

    method DeleteChapter(id: Id) returns (r: Result<Row, Error>)
      requires Valid()
      modifies this`tables, this`trees, this`lists
      ensures Valid()
      ensures var c := Ref(Chapter, id);
              if Visible(old(tables), c) then
                r == Ok(Tombstoned(old(tables)[c], now)) && Wrote(c, r.value, Some(old(tables)[c].parent))
              else r == Err(NotFound) && unchanged(this)
      ensures r.Ok? ==> Vanished(old(tables), tables, Ref(Chapter, id)) && r.value == tables[Ref(Chapter, id)]
    {
      var c := Ref(Chapter, id);
      if !Visible(tables, c) {
        return Err(NotFound);
      }
      var existing := tables[c];
      var deleted := Tombstoned(existing, now);
      LowerWriteCoherent(tables, trees, lists, now, c, deleted, Some(existing.parent));
      TombstoneVanishes(tables, Ref(Chapter, id), deleted);
      tables := tables[c := deleted];
      InvalidateCurriculumCache(existing.parent);
      return Ok(deleted);
    }

    // -------------------------------------------------------------- section

    method CreateSection(chapterId: Id, newId: Id, content: Content) returns (r: Result<Row, Error>)
      requires Valid() && Ref(Section, newId) !in tables && content.NodeContent?
      modifies this`tables, this`trees, this`lists
      ensures Valid()
      ensures if Visible(old(tables), Ref(Chapter, chapterId)) then
                r == Ok(Row(chapterId, content, now, None)) && Wrote(Ref(Section, newId), r.value, Some(old(tables)[Ref(Chapter, chapterId)].parent))
              else r == Err(NotFound) && unchanged(this)
    {
      var c := Ref(Chapter, chapterId);
      if !Visible(tables, c) {
        return Err(NotFound);
      }
      var chapter := tables[c];
      var row := Row(chapterId, content, now, None);
      LowerWriteCoherent(tables, trees, lists, now, Ref(Section, newId), row, Some(chapter.parent));
      tables := tables[Ref(Section, newId) := row];
      InvalidateCurriculumCache(chapter.parent);
      return Ok(row);
    }

    method UpdateSection(id: Id, patch: NodePatch) returns (r: Result<Row, Error>)
      requires Valid()
      modifies this`tables, this`trees, this`lists
      ensures Valid()
      ensures var s := Ref(Section, id);
              if Visible(old(tables), s) then
                r == Ok(PatchedNode(old(tables)[s], patch, now)) && Wrote(s, r.value, Walk(old(tables), Ref(Chapter, old(tables)[s].parent)))
              else r == Err(NotFound) && unchanged(this)
      ensures r.Ok? ==> NodeTook(old(tables)[Ref(Section, id)], patch, r.value, now) && r.value == tables[Ref(Section, id)]
    {
      var s := Ref(Section, id);
      if !Visible(tables, s) {
        return Err(NotFound);
      }
      var existing := tables[s];
      var updated := PatchedNode(existing, patch, now);
      WriteThenWalk(s, updated, Ref(Chapter, existing.parent));
      tables := tables[s := updated];
      InvalidateFromChapter(existing.parent);
      return Ok(updated);
    }

    method DeleteSection(id: Id) returns (r: Result<Row, Error>)
      requires Valid()
      modifies this`tables, this`trees, this`lists
      ensures Valid()
      ensures var s := Ref(Section, id);
              if Visible(old(tables), s) then
                r == Ok(Tombstoned(old(tables)[s], now)) && Wrote(s, r.value, Walk(old(tables), Ref(Chapter, old(tables)[s].parent)))
              else r == Err(NotFound) && unchanged(this)
      ensures r.Ok? ==> Vanished(old(tables), tables, Ref(Section, id)) && r.value == tables[Ref(Section, id)]
    {
      var s := Ref(Section, id);
      if !Visible(tables, s) {
        return Err(NotFound);
      }
      var existing := tables[s];
      var deleted := Tombstoned(existing, now);
      WriteThenWalk(s, deleted, Ref(Chapter, existing.parent));
      TombstoneVanishes(tables, Ref(Section, id), deleted);
      tables := tables[s := deleted];
      InvalidateFromChapter(existing.parent);
      return Ok(deleted);
    }

    // -------------------------------------------------------------- topic

    method CreateTopic(sectionId: Id, newId: Id, content: Content) returns (r: Result<Row, Error>)
      requires Valid() && Ref(Topic, newId) !in tables && content.NodeContent?
      modifies this`tables, this`trees, this`lists
      ensures Valid()
      ensures if Visible(old(tables), Ref(Section, sectionId)) then
                r == Ok(Row(sectionId, content, now, None)) && Wrote(Ref(Topic, newId), r.value, Walk(old(tables), Ref(Section, sectionId)))
              else r == Err(NotFound) && unchanged(this)
    {
      var s := Ref(Section, sectionId);
      if !Visible(tables, s) {
        return Err(NotFound);
      }
      var section := tables[s];
      var row := Row(sectionId, content, now, None);
      WriteThenWalk(Ref(Topic, newId), row, s);
      tables := tables[Ref(Topic, newId) := row];
      InvalidateFromChapter(section.parent);
      return Ok(row);
    }

    method UpdateTopic(id: Id, patch: NodePatch) returns (r: Result<Row, Error>)
      requires Valid()
      modifies this`tables, this`trees, this`lists
      ensures Valid()
      ensures var p := Ref(Topic, id);
              if Visible(old(tables), p) then
                r == Ok(PatchedNode(old(tables)[p], patch, now)) && Wrote(p, r.value, Walk(old(tables), Ref(Section, old(tables)[p].parent)))
              else r == Err(NotFound) && unchanged(this)
      ensures r.Ok? ==> NodeTook(old(tables)[Ref(Topic, id)], patch, r.value, now) && r.value == tables[Ref(Topic, id)]
    {
      var p := Ref(Topic, id);
      if !Visible(tables, p) {
        return Err(NotFound);
      }
      var existing := tables[p];
      var updated := PatchedNode(existing, patch, now);
      WriteThenWalk(p, updated, Ref(Section, existing.parent));
      tables := tables[p := updated];
      InvalidateTopicParentCache(existing.parent);
      return Ok(updated);
    }

    method DeleteTopic(id: Id) returns (r: Result<Row, Error>)
      requires Valid()
      modifies this`tables, this`trees, this`lists
      ensures Valid()
      ensures var p := Ref(Topic, id);
              if Visible(old(tables), p) then
                r == Ok(Tombstoned(old(tables)[p], now)) && Wrote(p, r.value, Walk(old(tables), Ref(Section, old(tables)[p].parent)))
              else r == Err(NotFound) && unchanged(this)
      ensures r.Ok? ==> Vanished(old(tables), tables, Ref(Topic, id)) && r.value == tables[Ref(Topic, id)]
    {
      var p := Ref(Topic, id);
      if !Visible(tables, p) {
        return Err(NotFound);
      }
      var existing := tables[p];
      var deleted := Tombstoned(existing, now);
      WriteThenWalk(p, deleted, Ref(Section, existing.parent));
      TombstoneVanishes(tables, Ref(Topic, id), deleted);
      tables := tables[p := deleted];
      InvalidateTopicParentCache(existing.parent);
      return Ok(deleted);
    }

    // -------------------------------------------------------------- learning objective

    method CreateObjective(topicId: Id, newId: Id, content: Content) returns (r: Result<Row, Error>)
      requires Valid() && Ref(Objective, newId) !in tables && content.ObjectiveContent?
      modifies this`tables, this`trees, this`lists
      ensures Valid()
      ensures if Visible(old(tables), Ref(Topic, topicId)) then
                r == Ok(Row(topicId, content, now, None)) && Wrote(Ref(Objective, newId), r.value, Walk(old(tables), Ref(Topic, topicId)))
              else r == Err(NotFound) && unchanged(this)
    {
      var p := Ref(Topic, topicId);
      if !Visible(tables, p) {
        return Err(NotFound);
      }
      var topic := tables[p];
      var row := Row(topicId, content, now, None);
      WriteThenWalk(Ref(Objective, newId), row, p);
      tables := tables[Ref(Objective, newId) := row];
      InvalidateTopicParentCache(topic.parent);
      return Ok(row);
    }

    method UpdateObjective(id: Id, patch: ObjectivePatch) returns (r: Result<Row, Error>)
      requires Valid()
      modifies this`tables, this`trees, this`lists
      ensures Valid()
      ensures var o := Ref(Objective, id);
              if Visible(old(tables), o) then
                r == Ok(PatchedObjective(old(tables)[o], patch, now)) && Wrote(o, r.value, Walk(old(tables), Ref(Topic, old(tables)[o].parent)))
              else r == Err(NotFound) && unchanged(this)
      ensures r.Ok? ==> ObjectiveTook(old(tables)[Ref(Objective, id)], patch, r.value, now) && r.value == tables[Ref(Objective, id)]
    {
      var o := Ref(Objective, id);
      if !Visible(tables, o) {
        return Err(NotFound);
      }
      var existing := tables[o];
      var updated := PatchedObjective(existing, patch, now);
      WriteThenWalk(o, updated, Ref(Topic, existing.parent));
      tables := tables[o := updated];
      InvalidateFromTopic(existing.parent);
      return Ok(updated);
    }

    method DeleteObjective(id: Id) returns (r: Result<Row, Error>)
      requires Valid()
      modifies this`tables, this`trees, this`lists
      ensures Valid()
      ensures var o := Ref(Objective, id);
              if Visible(old(tables), o) then
                r == Ok(Tombstoned(old(tables)[o], now)) && Wrote(o, r.value, Walk(old(tables), Ref(Topic, old(tables)[o].parent)))
              else r == Err(NotFound) && unchanged(this)
      ensures r.Ok? ==> Vanished(old(tables), tables, Ref(Objective, id)) && r.value == tables[Ref(Objective, id)]
    {
      var o := Ref(Objective, id);
      if !Visible(tables, o) {
        return Err(NotFound);
      }
      var existing := tables[o];
      var deleted := Tombstoned(existing, now);
      WriteThenWalk(o, deleted, Ref(Topic, existing.parent));
      TombstoneVanishes(tables, Ref(Objective, id), deleted);
      tables := tables[o := deleted];
      InvalidateFromTopic(existing.parent);
      return Ok(deleted);
    }

    /** The walk made after the write sees what it would have seen before, and dropping its tree is enough. */
    lemma WriteThenWalk(r: Ref, row: Row, parent: Ref)
      requires Valid() && r.level != Curriculum && r.level != Chapter && KeepsParent(tables, r, row)
      requires parent == Ref(r.level.Up(), row.parent)
      ensures Walk(tables[r := row], parent) == Walk(tables, parent)
      ensures TreesCoherent(tables[r := row], trees - Named(Walk(tables, parent)), now)
      ensures ListsCoherent(tables[r := row], lists, now)
    {
      WalkIgnoresLowerWrite(tables, r, row, parent);
      LowerWriteCoherent(tables, trees, lists, now, r, row, Walk(tables, parent));
    }
  }
}
