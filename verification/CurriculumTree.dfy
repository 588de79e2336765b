/**
 The five-level curriculum hierarchy (curriculum, chapter, section, topic, learning objective) as the
 repository stores and queries it: one row map for the five tables, soft deletion by a tombstone date,
 and the nested, filtered, ordered query that the service caches.
 */
module CurriculumTree {
  import opened Prelude

  /** Row identifiers. A UUID is modelled by a number; only equality and a fixed order for ties matter. */
  type Id = nat

  datatype Level = Curriculum | Chapter | Section | Topic | Objective {
    function Height(): nat {
      match this
      case Curriculum => 4
      case Chapter => 3
      case Section => 2
      case Topic => 1
      case Objective => 0
    }

    function Down(): (l: Level)
      requires this != Objective
      ensures l.Height() + 1 == Height()
    {
      match this
      case Curriculum => Chapter
      case Chapter => Section
      case Section => Topic
      case Topic => Objective
    }

    function Up(): (l: Level)
      requires this != Curriculum
      ensures l != Objective && l.Down() == this
    {
      match this
      case Chapter => Curriculum
      case Section => Chapter
      case Topic => Section
      case Objective => Topic
    }
  }

  /** A row of one of the five tables: the table's level and the row's id. */
  datatype Ref = Ref(level: Level, id: Id)

  datatype Content =
    | CurriculumContent(name: string, grade: int, semester: int, subject: string, orderIndex: int)
    | NodeContent(name: string, orderIndex: int)
    | ObjectiveContent(description: string, bloomLevel: string)

  /** `parent` is the foreign key to the level above; a curriculum has none and the field is unused. */
  datatype Row = Row(parent: Id, content: Content, updatedAt: nat, deletedAt: Option<nat>)

  type Tables = map<Ref, Row>

  predicate Visible(t: Tables, r: Ref) {
    r in t && t[r].deletedAt.None?
  }

  function ParentRef(t: Tables, r: Ref): Ref
    requires r in t && r.level != Curriculum
  {
    Ref(r.level.Up(), t[r].parent)
  }

  // ---------------------------------------------------------------- ordering

  /** The sort key of a row: grade and semester (lists only), then orderIndex, ties broken by id. */
  datatype SortKey = SortKey(grade: int, semester: int, orderIndex: int, id: Id) {
    predicate AtMost(that: SortKey) {
      || grade < that.grade
      || (grade == that.grade &&
          (|| semester < that.semester
           || (semester == that.semester &&
               (|| orderIndex < that.orderIndex
                || (orderIndex == that.orderIndex && id <= that.id)))))
    }
  }

  lemma LeastExists(s: set<SortKey>)
    requires s != {}
    ensures exists m :: m in s && forall k :: k in s ==> m.AtMost(k)
  {
    var x :| x in s;
    if s == {x} {
      assert x in s && forall k :: k in s ==> x.AtMost(k);
    } else {
      var rest := s - {x};
      LeastExists(rest);
      var m :| m in rest && forall k :: k in rest ==> m.AtMost(k);
      var least := if x.AtMost(m) then x else m;
      assert forall k :: k in s ==> k == x || k in rest;
      assert least in s && forall k :: k in s ==> least.AtMost(k);
    }
  }

  function Least(s: set<SortKey>): (m: SortKey)
    requires s != {}
    ensures m in s && forall k :: k in s ==> m.AtMost(k)
  {
    LeastExists(s);
    var m :| m in s && forall k :: k in s ==> m.AtMost(k);
    m
  }

  /** The ORDER BY of a query: every key exactly once, strictly ascending. */
  function Ordered(s: set<SortKey>): (ks: seq<SortKey>)
    ensures forall k :: k in ks <==> k in s
    ensures forall i, j :: 0 <= i < j < |ks| ==> ks[i].AtMost(ks[j]) && ks[i] != ks[j]
  {
    if s == {} then [] else
      var m := Least(s);
      var rest := Ordered(s - {m});
      assert forall k :: k in s ==> k == m || k in rest;
      [m] + rest
  }

  function OrderIndex(c: Content): int {
    if c.ObjectiveContent? then 0 else c.orderIndex
  }

  // ---------------------------------------------------------------- the nested tree query

  function ChildKeys(t: Tables, r: Ref): set<SortKey>
    requires r.level != Objective
  {
    set c | c in t && c.level == r.level.Down() && t[c].parent == r.id && t[c].deletedAt.None?
      :: SortKey(0, 0, OrderIndex(t[c].content), c.id)
  }

  predicate IsChild(t: Tables, c: Ref, r: Ref) {
    Visible(t, c) && c.level != Curriculum && ParentRef(t, c) == r
  }

  lemma ChildKeysExact(t: Tables, r: Ref, ks: seq<SortKey>)
    requires r.level != Objective && ks == Ordered(ChildKeys(t, r))
    ensures forall i :: 0 <= i < |ks| ==> IsChild(t, Ref(r.level.Down(), ks[i].id), r)
    ensures forall c :: IsChild(t, c, r) ==> exists i :: 0 <= i < |ks| && c == Ref(r.level.Down(), ks[i].id)
  {
    forall i | 0 <= i < |ks| ensures IsChild(t, Ref(r.level.Down(), ks[i].id), r) {
      assert ks[i] in ChildKeys(t, r);
    }
    forall c | IsChild(t, c, r) ensures exists i :: 0 <= i < |ks| && c == Ref(r.level.Down(), ks[i].id) {
      assert SortKey(0, 0, OrderIndex(t[c].content), c.id) in ChildKeys(t, r);
    }
  }

  /** The visible children of a row in query order. */
  function Children(t: Tables, r: Ref): (cs: seq<Ref>)
    requires r.level != Objective
    ensures forall c :: c in cs <==> IsChild(t, c, r)
    ensures |cs| == |Ordered(ChildKeys(t, r))|
    ensures forall i :: 0 <= i < |cs| ==> cs[i] == Ref(r.level.Down(), Ordered(ChildKeys(t, r))[i].id) && IsChild(t, cs[i], r)
  {
    var ks := Ordered(ChildKeys(t, r));
    ChildKeysExact(t, r, ks);
    var cs := seq(|ks|, i requires 0 <= i < |ks| => Ref(r.level.Down(), ks[i].id));
    assert forall i :: 0 <= i < |ks| ==> cs[i] == Ref(r.level.Down(), ks[i].id);
    cs
  }

  datatype Tree = Node(id: Id, row: Row, children: seq<Tree>)

  function Build(t: Tables, r: Ref): Tree
    requires r in t
    decreases r.level.Height()
  {
    Node(r.id, t[r],
         if r.level == Objective then [] else
           var cs := Children(t, r);
           seq(|cs|, i requires 0 <= i < |cs| => Build(t, cs[i])))
  }

  /** findCurriculumById: the nested tree of a visible curriculum. */
  function FindTree(t: Tables, id: Id): Option<Tree> {
    var r := Ref(Curriculum, id);
    if Visible(t, r) then Some(Build(t, r)) else None
  }

  // ---------------------------------------------------------------- what the tree contains

  /** Following parent links from `r` through visible rows only arrives at `n`. */
  predicate ReachesUp(t: Tables, r: Ref, n: Ref)
    decreases 4 - r.level.Height()
  {
    r == n || (Visible(t, r) && r.level != Curriculum && ReachesUp(t, ParentRef(t, r), n))
  }

  predicate Occurs(tree: Tree, level: Level, r: Ref)
    decreases level.Height()
  {
    || r == Ref(level, tree.id)
    || (level != Objective && exists i :: 0 <= i < |tree.children| && Occurs(tree.children[i], level.Down(), r))
  }

  lemma {:induction false} ReachesHeight(t: Tables, r: Ref, n: Ref)
    requires ReachesUp(t, r, n)
    ensures r == n || r.level.Height() < n.level.Height()
    decreases 4 - r.level.Height()
  {
    if r != n { ReachesHeight(t, ParentRef(t, r), n); }
  }

  lemma {:induction false} ReachesThroughChild(t: Tables, r: Ref, c: Ref, n: Ref)
    requires ReachesUp(t, r, c) && IsChild(t, c, n)
    ensures ReachesUp(t, r, n)
    decreases 4 - r.level.Height()
  {
    if r != c { ReachesThroughChild(t, ParentRef(t, r), c, n); } else { assert ReachesUp(t, ParentRef(t, r), n); }
  }

  /** The last link of a walk that ends at `n` enters it from a visible child. */
  lemma {:induction false} ReachesViaSomeChild(t: Tables, r: Ref, n: Ref) returns (c: Ref)
    requires ReachesUp(t, r, n) && r != n
    ensures IsChild(t, c, n) && ReachesUp(t, r, c)
    decreases 4 - r.level.Height()
  {
    var p := ParentRef(t, r);
    if p == n {
      c := r;
    } else {
      c := ReachesViaSomeChild(t, p, n);
    }
  }

  /** What a built tree holds: its root, and what the trees of its children hold. */
  lemma OccursBelow(t: Tables, n: Ref, r: Ref)
    requires n in t && n.level != Objective
    ensures Occurs(Build(t, n), n.level, r) <==> r == n || exists c :: c in Children(t, n) && c in t && Occurs(Build(t, c), c.level, r)
  {
    hide Children;
    var tree, cs := Build(t, n), Children(t, n);
    forall i | 0 <= i < |cs| ensures cs[i].level == n.level.Down() && tree.children[i] == Build(t, cs[i]) {
      ChildLevel(t, n, i);
    }
    if c :| c in cs && c in t && Occurs(Build(t, c), c.level, r) {
      var i :| 0 <= i < |cs| && cs[i] == c;
      assert Occurs(tree.children[i], n.level.Down(), r);
    }
    if i :| 0 <= i < |tree.children| && Occurs(tree.children[i], n.level.Down(), r) {
      assert cs[i] in cs;
    }
  }

  lemma ChildLevel(t: Tables, n: Ref, i: nat)
    requires n.level != Objective && i < |Children(t, n)|
    ensures Children(t, n)[i].level == n.level.Down()
  {
  }

  /** The query returns exactly the rows whose whole path up to the root is visible. */
  lemma {:induction false} TreeContainsExactlyVisiblePaths(t: Tables, n: Ref, r: Ref)
    requires n in t
    ensures Occurs(Build(t, n), n.level, r) <==> ReachesUp(t, r, n)
    decreases n.level.Height()
  {
    if n.level == Objective {
      if ReachesUp(t, r, n) { ReachesHeight(t, r, n); }
    } else {
      OccursBelow(t, n, r);
      ReachesItself(t, n);
      hide Occurs, Build, Children, ChildKeys, ReachesUp;
      forall c | c in Children(t, n) ensures c in t && c.level.Height() < n.level.Height() {
        assert IsChild(t, c, n);
      }
      if c :| c in Children(t, n) && c in t && Occurs(Build(t, c), c.level, r) {
        TreeContainsExactlyVisiblePaths(t, c, r);
        ReachesThroughChild(t, r, c, n);
      }
      if r != n && ReachesUp(t, r, n) {
        var c := ReachesViaSomeChild(t, r, n);
        assert c in Children(t, n);
        TreeContainsExactlyVisiblePaths(t, c, r);
      }
    }
  }

  lemma ReachesItself(t: Tables, r: Ref)
    ensures ReachesUp(t, r, r)
  {
  }

  predicate SiblingsInOrder(children: seq<Tree>) {
    forall i, j :: 0 <= i < j < |children| ==>
      && children[i].id != children[j].id
      && (|| OrderIndex(children[i].row.content) < OrderIndex(children[j].row.content)
          || (OrderIndex(children[i].row.content) == OrderIndex(children[j].row.content) && children[i].id < children[j].id))
  }

  predicate EverySiblingListInOrder(tree: Tree, level: Level)
    decreases level.Height()
  {
    level != Objective ==>
      && SiblingsInOrder(tree.children)
      && forall i :: 0 <= i < |tree.children| ==> EverySiblingListInOrder(tree.children[i], level.Down())
  }

  /** At every level the children are listed once each, ascending by orderIndex. */
  lemma {:induction false} TreeIsOrdered(t: Tables, n: Ref)
    requires n in t
    ensures EverySiblingListInOrder(Build(t, n), n.level)
    decreases n.level.Height()
  {
    if n.level != Objective {
      var ks, cs, kids := Ordered(ChildKeys(t, n)), Children(t, n), Build(t, n).children;
      forall i | 0 <= i < |cs|
        ensures kids[i].id == ks[i].id && OrderIndex(kids[i].row.content) == ks[i].orderIndex
        ensures ks[i].grade == ks[i].semester == 0
        ensures EverySiblingListInOrder(kids[i], n.level.Down())
      {
        assert IsChild(t, cs[i], n) && ks[i] in ChildKeys(t, n);
        TreeIsOrdered(t, cs[i]);
      }
    }
  }

  // ---------------------------------------------------------------- what one write can change

  /** Keeps the foreign key of a row that already exists; a new row may have any parent. */
  predicate KeepsParent(t: Tables, r: Ref, row: Row) {
    r in t ==> t[r].parent == row.parent
  }

  /** The row is neither written under `n` now nor was it before. */
  lemma UnreachedChildrenUnchanged(t: Tables, r: Ref, row: Row, n: Ref)
    requires n.level != Objective && KeepsParent(t, r, row)
    requires r.level != Curriculum ==> Ref(r.level.Up(), row.parent) != n
    ensures Children(t[r := row], n) == Children(t, n)
  {
    var t' := t[r := row];
    hide Ordered, Children;
    assert ChildKeys(t', n) == ChildKeys(t, n) by {
      assert forall c :: c in t' && c.level == n.level.Down() && t'[c].parent == n.id ==> c != r && c in t && t'[c] == t[c];
      assert forall c :: c in t && c.level == n.level.Down() && t[c].parent == n.id ==> c != r && c in t' && t'[c] == t[c];
    }
    assert |Children(t', n)| == |Children(t, n)|;
  }

  lemma SameBuild(t: Tables, t': Tables, n: Ref)
    requires n in t && n in t' && t'[n] == t[n] && n.level != Objective && Children(t', n) == Children(t, n)
    requires forall i :: 0 <= i < |Children(t, n)| ==> Children(t, n)[i] in t' && Build(t', Children(t, n)[i]) == Build(t, Children(t, n)[i])
    ensures Build(t', n) == Build(t, n)
  {
    hide Children;
  }

  /** Writing a row leaves every tree unchanged that cannot be reached from the row's parent. */
  lemma {:induction false} UnreachedTreeUnchanged(t: Tables, r: Ref, row: Row, n: Ref)
    requires n in t && n != r && KeepsParent(t, r, row)
    requires r.level != Curriculum ==> !ReachesUp(t, Ref(r.level.Up(), row.parent), n)
    ensures Build(t[r := row], n) == Build(t, n)
    decreases n.level.Height()
  {
    if n.level == Objective {
      return;
    }
    hide Build, Children, ChildKeys, ReachesUp;
    var t' := t[r := row];
    var p := if r.level == Curriculum then r else Ref(r.level.Up(), row.parent);
    ReachesItself(t, p);
    UnreachedChildrenUnchanged(t, r, row, n);
    var cs := Children(t, n);
    forall i | 0 <= i < |cs| ensures cs[i] in t' && Build(t', cs[i]) == Build(t, cs[i]) {
      assert IsChild(t, cs[i], n);
      if r.level != Curriculum {
        if ReachesUp(t, p, cs[i]) { ReachesThroughChild(t, p, cs[i], n); }
        WrittenIsNotBelow(t, r, row, cs[i], n);
      }
      UnreachedTreeUnchanged(t, r, row, cs[i]);
    }
    SameBuild(t, t', n);
  }

  lemma WrittenIsNotBelow(t: Tables, r: Ref, row: Row, c: Ref, n: Ref)
    requires r.level != Curriculum && KeepsParent(t, r, row) && IsChild(t, c, n) && Ref(r.level.Up(), row.parent) != n
    ensures c != r
  {
  }

  // ---------------------------------------------------------------- what a tombstone hides

  /** The row shows up in the tree of some curriculum. */
  ghost predicate InSomeTree(t: Tables, q: Ref) {
    exists id :: FindTree(t, id).Some? && Occurs(FindTree(t, id).value, Curriculum, q)
  }

  /** A path that led through a row ends there once the row carries a deletion date. */
  lemma {:induction false} PathEndsAtTombstone(t: Tables, r: Ref, row: Row, q: Ref, root: Ref)
    requires r in t && row.deletedAt.Some? && root.level == Curriculum && root != r && ReachesUp(t, q, r)
    ensures !ReachesUp(t[r := row], q, root)
    decreases 4 - q.level.Height()
  {
    if q != r {
      PathEndsAtTombstone(t, r, row, ParentRef(t, q), root);
    }
  }

  /** The row carries a deletion date, keeps its place and its content, and it and all below it are out of every answer. */
  ghost predicate Vanished(t: Tables, t': Tables, r: Ref) {
    && r in t && r in t' && t'[r].deletedAt.Some? && !Visible(t', r) && t'[r].parent == t[r].parent && t'[r].content == t[r].content
    && (forall q :: ReachesUp(t, q, r) ==> !InSomeTree(t', q))
    && (r.level == Curriculum ==>
          FindTree(t', r.id).None? && forall g, s, x :: x in ListQuery(t', g, s) ==> x.id != r.id)
  }

  lemma TombstoneVanishes(t: Tables, r: Ref, row: Row)
    requires r in t && row.deletedAt.Some? && row.parent == t[r].parent && row.content == t[r].content
    ensures Vanished(t, t[r := row], r)
  {
    var t' := t[r := row];
    forall q | ReachesUp(t, q, r) ensures !InSomeTree(t', q) {
      forall id | FindTree(t', id).Some? ensures !Occurs(FindTree(t', id).value, Curriculum, q) {
        PathEndsAtTombstone(t, r, row, q, Ref(Curriculum, id));
        TreeContainsExactlyVisiblePaths(t', Ref(Curriculum, id), q);
      }
    }
    if r.level == Curriculum {
      forall g, s, x | x in ListQuery(t', g, s) ensures x.id != r.id {
        assert IsListed(t', x, g, s);
      }
    }
  }

  // ---------------------------------------------------------------- the upward walk of the invalidation

  /**
   The lookup chain of the invalidation, from a section or chapter (or a topic) up: each row is read
   with findFirst(deletedAt: null), and a missing one silently ends the walk. The visible chapter's
   foreign key names the curriculum whose cache key is deleted; the curriculum row itself is not read.
   */
  function Walk(t: Tables, r: Ref): Option<Id>
    requires r.level != Curriculum
    decreases 4 - r.level.Height()
  {
    if !Visible(t, r) then None
    else if r.level == Chapter then Some(t[r].parent)
    else Walk(t, ParentRef(t, r))
  }

  /** The silent skip is sound: a row with a visible path to a curriculum is always found by the walk. */
  lemma {:induction false} WalkFindsReachedCurriculum(t: Tables, r: Ref, id: Id)
    requires r.level != Curriculum
    ensures ReachesUp(t, r, Ref(Curriculum, id)) <==> Walk(t, r) == Some(id)
    decreases 4 - r.level.Height()
  {
    if Visible(t, r) {
      if r.level != Chapter {
        WalkFindsReachedCurriculum(t, ParentRef(t, r), id);
      } else {
        assert ReachesUp(t, r, Ref(Curriculum, id)) <==> ReachesUp(t, ParentRef(t, r), Ref(Curriculum, id));
      }
    }
  }

  /** A write below the curriculum level only affects the tree that the walk from its parent names. */
  lemma WriteAffectsOnlyWalkedTree(t: Tables, r: Ref, row: Row, id: Id)
    requires r.level != Curriculum && KeepsParent(t, r, row)
    ensures FindTree(t[r := row], id) != FindTree(t, id) ==>
              if r.level == Chapter then row.parent == id else Walk(t, Ref(r.level.Up(), row.parent)) == Some(id)
  {
    var root := Ref(Curriculum, id);
    var p := Ref(r.level.Up(), row.parent);
    if Visible(t, root) && !ReachesUp(t, p, root) {
      UnreachedTreeUnchanged(t, r, row, root);
    }
    if r.level != Chapter {
      WalkFindsReachedCurriculum(t, p, id);
    }
  }

  /** Writing a curriculum row affects no other curriculum's tree. */
  lemma CurriculumWriteAffectsOnlyItself(t: Tables, id: Id, row: Row, other: Id)
    requires other != id && KeepsParent(t, Ref(Curriculum, id), row)
    ensures FindTree(t[Ref(Curriculum, id) := row], other) == FindTree(t, other)
  {
    if Visible(t, Ref(Curriculum, other)) {
      UnreachedTreeUnchanged(t, Ref(Curriculum, id), row, Ref(Curriculum, other));
    }
  }

  /** Rows at or below the written one never lie on a path up from its parent, so the walk ignores the write. */
  lemma {:induction false} WalkIgnoresLowerWrite(t: Tables, r: Ref, row: Row, from: Ref)
    requires from.level != Curriculum && r.level.Height() < from.level.Height()
    ensures Walk(t[r := row], from) == Walk(t, from)
    decreases 4 - from.level.Height()
  {
    if Visible(t, from) && from.level != Chapter {
      WalkIgnoresLowerWrite(t, r, row, ParentRef(t, from));
    }
  }

  // ---------------------------------------------------------------- the filtered list query

  datatype Listed = Listed(id: Id, row: Row)

  predicate Selected(row: Row, grade: Option<int>, semester: Option<int>) {
    && row.deletedAt.None?
    && row.content.CurriculumContent?
    && (grade.Some? ==> row.content.grade == grade.value)
    && (semester.Some? ==> row.content.semester == semester.value)
  }

  function ListKeySet(t: Tables, grade: Option<int>, semester: Option<int>): set<SortKey> {
    set r | r in t && r.level == Curriculum && Selected(t[r], grade, semester)
      :: SortKey(t[r].content.grade, t[r].content.semester, t[r].content.orderIndex, r.id)
  }

  predicate IsListed(t: Tables, x: Listed, grade: Option<int>, semester: Option<int>) {
    var r := Ref(Curriculum, x.id);
    r in t && t[r] == x.row && Selected(x.row, grade, semester)
  }

  /** findCurriculumList: visible curricula that pass the filters, by grade, semester, orderIndex. */
  function ListQuery(t: Tables, grade: Option<int>, semester: Option<int>): (l: seq<Listed>)
    ensures forall x :: x in l <==> IsListed(t, x, grade, semester)
  {
    var ks := Ordered(ListKeySet(t, grade, semester));
    assert forall i :: 0 <= i < |ks| ==> ks[i] in ListKeySet(t, grade, semester);
    var l := seq(|ks|, i requires 0 <= i < |ks| => Listed(ks[i].id, t[Ref(Curriculum, ks[i].id)]));
    assert forall x :: IsListed(t, x, grade, semester) ==> x in l by {
      forall x | IsListed(t, x, grade, semester) ensures x in l {
        var k := SortKey(x.row.content.grade, x.row.content.semester, x.row.content.orderIndex, x.id);
        assert k in ListKeySet(t, grade, semester);
        var i :| 0 <= i < |ks| && ks[i] == k;
        assert l[i] == x;
      }
    }
    l
  }

  /** The list holds exactly the rows without a deletion date whose columns equal the given filters. */
  lemma ListHoldsExactly(t: Tables, grade: Option<int>, semester: Option<int>, x: Listed)
    requires Ref(Curriculum, x.id) in t ==> t[Ref(Curriculum, x.id)].content.CurriculumContent?
    ensures x in ListQuery(t, grade, semester) <==>
              && Ref(Curriculum, x.id) in t && t[Ref(Curriculum, x.id)] == x.row && x.row.deletedAt == None
              && grade in {None, Some(x.row.content.grade)} && semester in {None, Some(x.row.content.semester)}
  {
    assert x in ListQuery(t, grade, semester) <==> IsListed(t, x, grade, semester);
  }

  function KeyOf(x: Listed): SortKey
    requires x.row.content.CurriculumContent?
  {
    SortKey(x.row.content.grade, x.row.content.semester, x.row.content.orderIndex, x.id)
  }

  /** Grade first, then semester, then orderIndex. */
  predicate ListedBefore(a: Content, b: Content)
    requires a.CurriculumContent? && b.CurriculumContent?
  {
    a.grade < b.grade || (a.grade == b.grade && (a.semester < b.semester || (a.semester == b.semester && a.orderIndex <= b.orderIndex)))
  }

  /** The list is ascending by grade, then semester, then orderIndex, and holds no curriculum twice. */
  lemma ListIsOrdered(t: Tables, grade: Option<int>, semester: Option<int>)
    ensures var l := ListQuery(t, grade, semester);
            && (forall i :: 0 <= i < |l| ==> l[i].row.content.CurriculumContent?)
            && (forall i, j :: 0 <= i < j < |l| ==> ListedBefore(l[i].row.content, l[j].row.content) && l[i].id != l[j].id)
  {
    var ks, l := Ordered(ListKeySet(t, grade, semester)), ListQuery(t, grade, semester);
    forall i | 0 <= i < |l| ensures l[i].row.content.CurriculumContent? && KeyOf(l[i]) == ks[i] {
      assert l[i] in l && ks[i] in ListKeySet(t, grade, semester);
    }
    forall i, j | 0 <= i < j < |l| ensures ListedBefore(l[i].row.content, l[j].row.content) && l[i].id != l[j].id {
      SameCurriculum(t, l[i], l[j], grade, semester);
      assert ks[i].AtMost(ks[j]);
    }
  }

  lemma SameCurriculum(t: Tables, x: Listed, y: Listed, grade: Option<int>, semester: Option<int>)
    requires IsListed(t, x, grade, semester) && IsListed(t, y, grade, semester)
    ensures x.id == y.id ==> KeyOf(x) == KeyOf(y)
  {
  }

  /** Lists depend on curriculum rows only. */
  lemma LowerWriteKeepsLists(t: Tables, r: Ref, row: Row, grade: Option<int>, semester: Option<int>)
    requires r.level != Curriculum
    ensures ListQuery(t[r := row], grade, semester) == ListQuery(t, grade, semester)
  {
    var t' := t[r := row];
    assert ListKeySet(t', grade, semester) == ListKeySet(t, grade, semester);
    var ks := Ordered(ListKeySet(t, grade, semester));
    assert forall i :: 0 <= i < |ks| ==> ks[i] in ListKeySet(t, grade, semester);
  }
}
