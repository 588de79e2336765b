/**
 CurriculumService with every call split at its awaits: each database query and each Redis command is
 one step, and the steps of any number of calls interleave freely. A list is requested by its key, so
 filters are absent or non-zero here (the zero filter is settled in module CurriculumService).
 */
module CurriculumAwaits {
  import opened Prelude
  import opened CurriculumTree
  import CS = CurriculumService

  /** CACHE_TTL.CURRICULUM and CACHE_TTL.CURRICULUM_LIST are the same 24 hours. */
  const TTL: nat := 86400

  datatype Key = TreeKey(id: Id) | ListKey(grade: int, semester: int)

  datatype Answer = TreeAnswer(tree: Tree) | ListAnswer(list: seq<Listed>)

  function Query(t: Tables, k: Key): Option<Answer> {
    match k
    case TreeKey(id) => (match FindTree(t, id) case Some(tree) => Some(TreeAnswer(tree)) case None => None)
    case ListKey(g, s) => Some(ListAnswer(ListQuery(t, CS.KeyFilter(g), CS.KeyFilter(s))))
  }

  // ---------------------------------------------------------------- calls in progress

  datatype Patch =
    | CurriculumFields(curriculum: CS.CurriculumPatch)
    | NodeFields(node: CS.NodePatch)
    | ObjectiveFields(objective: CS.ObjectivePatch)

  datatype Op =
    | Create(level: Level, parent: Id, content: Content)
    | Update(target: Ref, patch: Patch)
    | Delete(target: Ref)

  /** What an invalidation does next; a walk looks a row up, then names its parent. */
  datatype Next = ToRow(ref: Ref) | ToTree(id: Id) | ToListKeys | ToLists(keys: set<Key>)

  datatype Pc =
    | Missed(key: Key)                                // reader: cache missed, query next
    | Fetched(key: Key, answer: Answer, readAt: nat, overtaken: bool)  // reader: query answered, cache set next
    | Checked(op: Op, next: Next)                     // writer: existence check passed, write next
    | Invalidating(next: Next)                        // writer: row written, invalidation under way

  /**
   A cache entry with the times at which its reader queried and stored it. A reader is overtaken when a write
   changes the answer of its key between its query and its cache set; nothing else in the run marks it.
   */
  datatype Cached = Cached(answer: Answer, readAt: nat, setAt: nat, overtaken: bool)

  /** The tables as they were from one write to the next. */
  datatype Moment = Moment(tables: Tables, since: nat)

  datatype State = State(
    now: nat, tables: Tables, cache: map<Key, Cached>, calls: map<nat, Pc>,
    history: seq<Moment>)

  datatype Action =
    | Tick(seconds: nat)
    | Get(call: nat, key: Key)
    | Fetch(call: nat)
    | Store(call: nat)
    | Check(call: nat, op: Op)
    | Write(call: nat, newId: Id)
    | Invalidate(call: nat)

  function Initial(t: Tables, now: nat): State {
    State(now, t, map[], map[], [Moment(t, now)])
  }

  predicate Live(s: State, k: Key) {
    k in s.cache && s.now < s.cache[k].setAt + TTL
  }

  // ---------------------------------------------------------------- the writer's steps

  /** The row whose visibility the existence check reads. */
  predicate Known(t: Tables, op: Op) {
    match op
    case Create(level, parent, _) => level == Curriculum || Ref(level.Up(), parent) in t
    case Update(target, _) => target in t
    case Delete(target) => target in t
  }

  predicate Exists(t: Tables, op: Op) {
    match op
    case Create(level, parent, _) => level == Curriculum || Visible(t, Ref(level.Up(), parent))
    case Update(target, _) => Visible(t, target)
    case Delete(target) => Visible(t, target)
  }

  /** Where the invalidation of each of the fifteen write methods starts, fixed by the row the check read. */
  function Start(t: Tables, op: Op): Next
    requires Known(t, op)
  {
    match op
    case Create(level, parent, _) =>
      (match level
       case Curriculum => ToListKeys
       case Chapter => ToTree(parent)
       case Section => ToTree(t[Ref(Chapter, parent)].parent)
       case Topic => ToRow(ParentRef(t, Ref(Section, parent)))
       case Objective => ToRow(ParentRef(t, Ref(Topic, parent))))
    case Update(target, _) => StartAt(t, target)
    case Delete(target) => StartAt(t, target)
  }

  function StartAt(t: Tables, target: Ref): Next
    requires target in t
  {
    match target.level
    case Curriculum => ToTree(target.id)
    case Chapter => ToTree(t[target].parent)
    case _ => ToRow(ParentRef(t, target))
  }

  function Patched(row: Row, p: Patch, now: nat): Row {
    match (p, row.content)
    case (CurriculumFields(cp), CurriculumContent(_, _, _, _, _)) => CS.PatchedCurriculum(row, cp, now)
    case (NodeFields(np), NodeContent(_, _)) => CS.PatchedNode(row, np, now)
    case (ObjectiveFields(op), ObjectiveContent(_, _)) => CS.PatchedObjective(row, op, now)
    case _ => row
  }

  function Target(op: Op, newId: Id): Ref {
    if op.Create? then Ref(op.level, newId) else op.target
  }

  function NewRow(t: Tables, op: Op, now: nat): Row
    requires Known(t, op)
  {
    match op
    case Create(_, parent, content) => Row(parent, content, now, None)
    case Update(target, patch) => Patched(t[target], patch, now)
    case Delete(target) => CS.Tombstoned(t[target], now)
  }

  /** KEYS curriculum_list:* */
  function LiveListKeys(s: State): set<Key> {
    set k | k in s.cache && k.ListKey? && Live(s, k)
  }

  function InvalidateStep(s: State, call: nat, next: Next): State {
    match next
    case ToRow(ref) =>
      if ref.level == Curriculum || !Visible(s.tables, ref) then s.(calls := s.calls - {call})
      else if ref.level == Chapter then s.(calls := s.calls[call := Invalidating(ToTree(s.tables[ref].parent))])
      else s.(calls := s.calls[call := Invalidating(ToRow(ParentRef(s.tables, ref)))])
    case ToTree(id) =>
      s.(cache := s.cache - {TreeKey(id)}, calls := s.calls[call := Invalidating(ToListKeys)])
    case ToListKeys =>
      var keys := LiveListKeys(s);
      s.(calls := if keys == {} then s.calls - {call} else s.calls[call := Invalidating(ToLists(keys))])
    case ToLists(keys) =>
      s.(cache := s.cache - keys, calls := s.calls - {call})
  }

  /** A write overtakes the readers that hold an answer it changes. */
  function Overtaken(t: Tables, t': Tables, pc: Pc): Pc {
    if pc.Fetched? && Query(t', pc.key) != Query(t, pc.key) then pc.(overtaken := true) else pc
  }

  function WriteStep(s: State, call: nat, op: Op, next: Next, newId: Id): State
    requires Known(s.tables, op)
  {
    var t := s.tables[Target(op, newId) := NewRow(s.tables, op, s.now)];
    s.(tables := t,
       calls := (map c | c in s.calls :: Overtaken(s.tables, t, s.calls[c]))[call := Invalidating(next)],
       history := s.history + [Moment(t, s.now)])
  }

  // ---------------------------------------------------------------- all steps

  /** One step; an action that is not enabled leaves the state alone. */
  function Apply(s: State, a: Action): State {
    match a
    case Tick(d) => s.(now := s.now + d)
    case Get(c, k) =>
      if c in s.calls || Live(s, k) then s else s.(calls := s.calls[c := Missed(k)])
    case Fetch(c) =>
      if c in s.calls && s.calls[c].Missed? then
        var k := s.calls[c].key;
        match Query(s.tables, k)
        case None => s.(calls := s.calls - {c})
        case Some(answer) => s.(calls := s.calls[c := Fetched(k, answer, s.now, false)])
      else s
    case Store(c) =>
      if c in s.calls && s.calls[c].Fetched? then
        var pc := s.calls[c];
        s.(cache := s.cache[pc.key := Cached(pc.answer, pc.readAt, s.now, pc.overtaken)], calls := s.calls - {c})
      else s
    case Check(c, op) =>
      if c !in s.calls && Exists(s.tables, op) then s.(calls := s.calls[c := Checked(op, Start(s.tables, op))]) else s
    case Write(c, newId) =>
      if c in s.calls && s.calls[c].Checked? && Known(s.tables, s.calls[c].op)
         && (s.calls[c].op.Create? ==> Target(s.calls[c].op, newId) !in s.tables)
      then WriteStep(s, c, s.calls[c].op, s.calls[c].next, newId)
      else s
    case Invalidate(c) =>
      if c in s.calls && s.calls[c].Invalidating? then InvalidateStep(s, c, s.calls[c].next) else s
  }

  function Execute(s: State, actions: seq<Action>): State
    decreases |actions|
  {
    if actions == [] then s else Apply(Execute(s, actions[..|actions| - 1]), actions[|actions| - 1])
  }

  // ---------------------------------------------------------------- the invariant

  /** Moment `i` spans `time`, and the query answers `a` on its tables. */
  predicate HeldIn(h: seq<Moment>, i: nat, k: Key, a: Answer, time: nat) {
    i < |h| && h[i].since <= time && (i + 1 < |h| ==> time <= h[i + 1].since) && Query(h[i].tables, k) == Some(a)
  }

  /** The query would have answered `a` at some moment whose span includes `time`. */
  ghost predicate WasAt(h: seq<Moment>, k: Key, a: Answer, time: nat) {
    exists i :: HeldIn(h, i, k, a, time)
  }

  ghost predicate Recorded(s: State) {
    && |s.history| > 0
    && s.history[|s.history| - 1].tables == s.tables
    && s.history[|s.history| - 1].since <= s.now
    && (forall k :: k in s.cache ==>
          && s.cache[k].readAt <= s.cache[k].setAt <= s.now
          && WasAt(s.history, k, s.cache[k].answer, s.cache[k].readAt))
    && (forall c :: c in s.calls && s.calls[c].Fetched? ==>
          s.calls[c].readAt <= s.now && WasAt(s.history, s.calls[c].key, s.calls[c].answer, s.calls[c].readAt))
  }

  ghost predicate ChecksCurrent(s: State) {
    forall c :: c in s.calls && s.calls[c].Checked? ==>
      Known(s.tables, s.calls[c].op) && s.calls[c].next == Start(s.tables, s.calls[c].op)
  }

  /** The remaining invalidation steps will delete the key, as far as the current rows decide. */
  predicate CoversNext(t: Tables, next: Next, k: Key) {
    match next
    case ToRow(ref) => k.TreeKey? && ref.level != Curriculum && Walk(t, ref) == Some(k.id)
    case ToTree(id) => k.ListKey? || k.id == id
    case ToListKeys => k.ListKey?
    case ToLists(keys) => k in keys
  }

  predicate Covers(t: Tables, pc: Pc, k: Key) {
    pc.Invalidating? && CoversNext(t, pc.next, k)
  }

  ghost predicate Covered(s: State, k: Key) {
    exists c :: c in s.calls && Covers(s.tables, s.calls[c], k)
  }

  predicate Current(s: State, k: Key)
    requires k in s.cache
  {
    Query(s.tables, k) == Some(s.cache[k].answer)
  }

  ghost predicate ReadersCurrent(s: State) {
    forall c :: c in s.calls && s.calls[c].Fetched? && !s.calls[c].overtaken ==>
      Query(s.tables, s.calls[c].key) == Some(s.calls[c].answer)
  }

  ghost predicate StaleIsCovered(s: State) {
    forall k :: Live(s, k) && !s.cache[k].overtaken && !Current(s, k) ==> Covered(s, k)
  }

  ghost predicate Inv(s: State) {
    Recorded(s) && ChecksCurrent(s) && ReadersCurrent(s) && StaleIsCovered(s)
  }

  // ---------------------------------------------------------------- a write and the walks in flight

  ghost predicate IsWrite(t: Tables, op: Op, newId: Id) {
    Known(t, op) && (op.Create? ==> Target(op, newId) !in t)
  }

  lemma WriteKeepsParents(t: Tables, op: Op, newId: Id, now: nat)
    requires IsWrite(t, op, newId)
    ensures KeepsParent(t, Target(op, newId), NewRow(t, op, now))
    ensures op.Create? ==> NewRow(t, op, now).parent == op.parent
  {
  }

  /** A walk that would have reached a tree still does, unless this write cuts it; then the writer takes over. */
  lemma {:induction false} WalkSurvivesOrHandsOver(t: Tables, op: Op, newId: Id, now: nat, ref: Ref, id: Id)
    requires IsWrite(t, op, newId) && ref.level != Curriculum && Walk(t, ref) == Some(id)
    ensures var t' := t[Target(op, newId) := NewRow(t, op, now)];
            Walk(t', ref) == Some(id) || CoversNext(t', Start(t, op), TreeKey(id))
    decreases 4 - ref.level.Height()
  {
    WriteKeepsParents(t, op, newId, now);
    var r, row := Target(op, newId), NewRow(t, op, now);
    if ref == r {
      if r.level != Chapter { WalkIgnoresLowerWrite(t, r, row, ParentRef(t, r)); }
    } else if ref.level != Chapter {
      WalkSurvivesOrHandsOver(t, op, newId, now, ParentRef(t, ref), id);
    }
  }

  /** An answer that this write changes is one that the writer's own invalidation will delete. */
  lemma ChangedAnswerIsCoveredByWriter(t: Tables, op: Op, newId: Id, now: nat, k: Key)
    requires IsWrite(t, op, newId)
    requires var t' := t[Target(op, newId) := NewRow(t, op, now)]; Query(t', k) != Query(t, k) && Query(t, k).Some?
    ensures CoversNext(t[Target(op, newId) := NewRow(t, op, now)], Start(t, op), k)
  {
    WriteKeepsParents(t, op, newId, now);
    var r, row := Target(op, newId), NewRow(t, op, now);
    match k {
      case ListKey(g, s) =>
        if r.level != Curriculum { LowerWriteKeepsLists(t, r, row, CS.KeyFilter(g), CS.KeyFilter(s)); assert false; }
      case TreeKey(id) =>
        if r.level == Curriculum {
          if r.id != id { CurriculumWriteAffectsOnlyItself(t, r.id, row, id); assert false; }
        } else {
          WriteAffectsOnlyWalkedTree(t, r, row, id);
          if r.level != Chapter {
            var p := Ref(r.level.Up(), row.parent);
            WalkIgnoresLowerWrite(t, r, row, p);
          }
        }
    }
  }

  /** A writer gets past its existence check exactly when the row it asks for carries no deletion date. */
  lemma CheckStartsIff(s: State, call: nat, op: Op)
    requires call !in s.calls
    ensures var needed := if op.Create? then (if op.level == Curriculum then None else Some(Ref(op.level.Up(), op.parent))) else Some(op.target);
            call in Apply(s, Check(call, op)).calls <==>
              needed.Some? ==> needed.value in s.tables && s.tables[needed.value].deletedAt == None
  {
    hide Start;
  }

  /** What the write of a create or an update leaves in the row. */
  lemma WriteTook(t: Tables, op: Op, now: nat)
    requires Known(t, op) && CS.WellTyped(t)
    ensures op.Create? ==> NewRow(t, op, now) == Row(op.parent, op.content, now, None)
    ensures op.Update? && op.patch.CurriculumFields? && op.target.level == Curriculum ==>
              CS.CurriculumTook(t[op.target], op.patch.curriculum, NewRow(t, op, now), now)
    ensures op.Update? && op.patch.NodeFields? && op.target.level in {Chapter, Section, Topic} ==>
              CS.NodeTook(t[op.target], op.patch.node, NewRow(t, op, now), now)
    ensures op.Update? && op.patch.ObjectiveFields? && op.target.level == Objective ==>
              CS.ObjectiveTook(t[op.target], op.patch.objective, NewRow(t, op, now), now)
  {
  }

  /** The write of a delete hides the row and everything below it. */
  lemma DeleteVanishes(t: Tables, op: Op, now: nat)
    requires op.Delete? && Known(t, op)
    ensures Vanished(t, t[op.target := NewRow(t, op, now)], op.target)
  {
    TombstoneVanishes(t, op.target, NewRow(t, op, now));
  }

  // ---------------------------------------------------------------- preservation, step by step

  lemma WasAtExtends(h: seq<Moment>, m: Moment, k: Key, a: Answer, time: nat)
    requires WasAt(h, k, a, time) && time <= m.since
    ensures WasAt(h + [m], k, a, time)
  {
    var i :| HeldIn(h, i, k, a, time);
    assert HeldIn(h + [m], i, k, a, time);
  }

  lemma WasNow(s: State, k: Key, a: Answer)
    requires Recorded(s) && Query(s.tables, k) == Some(a)
    ensures WasAt(s.history, k, a, s.now)
  {
    hide Query;
    var i := |s.history| - 1;
    assert HeldIn(s.history, i, k, a, s.now);
  }

  lemma StaleStaysCovered(s: State, s': State)
    requires StaleIsCovered(s) && s'.tables == s.tables
    requires forall k :: Live(s', k) && !s'.cache[k].overtaken && !Current(s', k) ==> Live(s, k) && !s.cache[k].overtaken && !Current(s, k)
    requires forall k, c :: c in s.calls && Covers(s.tables, s.calls[c], k) && Live(s', k) ==> c in s'.calls && Covers(s.tables, s'.calls[c], k)
    ensures StaleIsCovered(s')
  {
    forall k | Live(s', k) && !s'.cache[k].overtaken && !Current(s', k)
      ensures Covered(s', k)
    {
      var c :| c in s.calls && Covers(s.tables, s.calls[c], k);
      assert c in s'.calls && Covers(s'.tables, s'.calls[c], k);
    }
  }

  lemma WriteKeepsRecord(s: State, call: nat, op: Op, next: Next, newId: Id)
    requires Recorded(s) && Known(s.tables, op)
    ensures Recorded(WriteStep(s, call, op, next, newId))
  {
    hide Query;
    var s' := WriteStep(s, call, op, next, newId);
    var m := Moment(s'.tables, s.now);
    forall k | k in s'.cache ensures WasAt(s'.history, k, s'.cache[k].answer, s'.cache[k].readAt) {
      WasAtExtends(s.history, m, k, s.cache[k].answer, s.cache[k].readAt);
    }
    forall c | c in s'.calls && s'.calls[c].Fetched?
      ensures c in s.calls && s.calls[c].Fetched? && s'.calls[c].readAt == s.calls[c].readAt
      ensures WasAt(s'.history, s'.calls[c].key, s'.calls[c].answer, s'.calls[c].readAt)
    {
      WasAtExtends(s.history, m, s.calls[c].key, s.calls[c].answer, s.calls[c].readAt);
    }
  }

  /** A pending invalidation keeps covering its keys across another call's write, or that call covers them. */
  lemma CoverSurvivesOrHandsOver(s: State, op: Op, newId: Id, pc: Pc, k: Key)
    requires IsWrite(s.tables, op, newId) && Covers(s.tables, pc, k)
    ensures var t' := s.tables[Target(op, newId) := NewRow(s.tables, op, s.now)];
            Covers(t', pc, k) || CoversNext(t', Start(s.tables, op), k)
  {
    if pc.next.ToRow? {
      WalkSurvivesOrHandsOver(s.tables, op, newId, s.now, pc.next.ref, k.id);
    }
  }

  lemma WriteKeepsReaders(s: State, call: nat, op: Op, next: Next, newId: Id)
    requires ReadersCurrent(s) && Known(s.tables, op)
    ensures ReadersCurrent(WriteStep(s, call, op, next, newId))
  {
    hide Query;
  }

  lemma WriteKeepsChecks(s: State, call: nat, op: Op, next: Next, newId: Id)
    requires ChecksCurrent(s) && IsWrite(s.tables, op, newId)
    ensures ChecksCurrent(WriteStep(s, call, op, next, newId))
  {
    hide Query, Walk;
    WriteKeepsParents(s.tables, op, newId, s.now);
  }

  /** A write leaves every call's invalidation where it was. */
  lemma WriteKeepsCovers(s: State, call: nat, op: Op, next: Next, newId: Id, c: nat, t: Tables, k: Key)
    requires Known(s.tables, op) && c in s.calls && c != call
    ensures var s' := WriteStep(s, call, op, next, newId); c in s'.calls && (Covers(t, s'.calls[c], k) <==> Covers(t, s.calls[c], k))
  {
    hide Query, CoversNext;
  }

  lemma WritePreserves(s: State, call: nat, newId: Id)
    requires Inv(s) && call in s.calls && s.calls[call].Checked?
    requires IsWrite(s.tables, s.calls[call].op, newId)
    ensures Inv(WriteStep(s, call, s.calls[call].op, s.calls[call].next, newId))
  {
    hide Query, Walk, WasAt, CoversNext, Start, Overtaken;
    var op, next := s.calls[call].op, s.calls[call].next;
    var s' := WriteStep(s, call, op, next, newId);
    WriteKeepsRecord(s, call, op, next, newId);
    WriteKeepsReaders(s, call, op, next, newId);
    WriteKeepsChecks(s, call, op, next, newId);
    forall k | Live(s', k) && !s'.cache[k].overtaken && !Current(s', k)
      ensures Covered(s', k)
    {
      assert Live(s, k);
      if Current(s, k) {
        ChangedAnswerIsCoveredByWriter(s.tables, op, newId, s.now, k);
        assert Covers(s'.tables, s'.calls[call], k);
      } else {
        var c :| c in s.calls && Covers(s.tables, s.calls[c], k);
        CoverSurvivesOrHandsOver(s, op, newId, s.calls[c], k);
        WriteKeepsCovers(s, call, op, next, newId, c, s'.tables, k);
        assert Covers(s'.tables, s'.calls[c], k) || Covers(s'.tables, s'.calls[call], k);
      }
    }
  }

  /** A pending invalidation passes every key it covers on to its own next step, or deletes it. */
  lemma InvalidateHandsOn(s: State, call: nat, next: Next, k: Key)
    requires call in s.calls && CoversNext(s.tables, next, k)
    requires Live(InvalidateStep(s, call, next), k)
    ensures var s' := InvalidateStep(s, call, next); call in s'.calls && Covers(s.tables, s'.calls[call], k)
  {
    if next.ToListKeys? {
      assert k in LiveListKeys(s);
    }
  }

  lemma InvalidateKeepsRest(s: State, call: nat, next: Next)
    requires Recorded(s) && ChecksCurrent(s) && call in s.calls && s.calls[call].Invalidating?
    ensures var s' := InvalidateStep(s, call, next);
            Recorded(s') && ChecksCurrent(s') && (ReadersCurrent(s) ==> ReadersCurrent(s'))
  {
    hide Query, Walk, Start, WasAt;
    var s' := InvalidateStep(s, call, next);
    assert s'.history == s.history && s'.tables == s.tables && s'.now == s.now;
    assert forall k :: k in s'.cache ==> k in s.cache && s'.cache[k] == s.cache[k];
    assert forall c :: c in s'.calls && !s'.calls[c].Invalidating? ==> c in s.calls && s'.calls[c] == s.calls[c];
  }

  lemma InvalidatePreserves(s: State, call: nat)
    requires Inv(s) && call in s.calls && s.calls[call].Invalidating?
    ensures Inv(InvalidateStep(s, call, s.calls[call].next))
  {
    hide Query, Walk, Start;
    var next := s.calls[call].next;
    var s' := InvalidateStep(s, call, next);
    InvalidateKeepsRest(s, call, next);
    forall k | Live(s', k) && !s'.cache[k].overtaken && !Current(s', k)
      ensures Covered(s', k)
    {
      assert Live(s, k) && !s.cache[k].overtaken && !Current(s, k);
      var c :| c in s.calls && Covers(s.tables, s.calls[c], k);
      if c == call {
        InvalidateHandsOn(s, call, next, k);
      }
      assert c in s'.calls && Covers(s'.tables, s'.calls[c], k);
    }
  }

  lemma StorePreserves(s: State, call: nat)
    requires Inv(s) && call in s.calls && s.calls[call].Fetched?
    ensures Inv(Apply(s, Store(call)))
  {
    hide Query, Walk, Start;
    var s' := Apply(s, Store(call));
    var pc := s.calls[call];
    assert s'.cache[pc.key] == Cached(pc.answer, pc.readAt, s.now, pc.overtaken);
    StaleStaysCovered(s, s');
  }

  lemma FetchPreserves(s: State, call: nat)
    requires Inv(s) && call in s.calls && s.calls[call].Missed?
    ensures Inv(Apply(s, Fetch(call)))
  {
    hide Query, Walk, Start;
    var k := s.calls[call].key;
    var q := Query(s.tables, k);
    var s' := if q.Some? then s.(calls := s.calls[call := Fetched(k, q.value, s.now, false)]) else s.(calls := s.calls - {call});
    assert Apply(s, Fetch(call)) == s';
    if q.Some? { WasNow(s, k, q.value); }
    assert Recorded(s') by {
      assert forall c :: c in s'.calls && c != call ==> c in s.calls && s'.calls[c] == s.calls[c];
    }
    assert ChecksCurrent(s');
    assert ReadersCurrent(s');
    StaleStaysCovered(s, s');
  }

  predicate JustStarted(t: Tables, pc: Pc) {
    pc.Missed? || (pc.Checked? && Known(t, pc.op) && pc.next == Start(t, pc.op))
  }

  /** Time passing, a cache lookup and an existence check change no row, no entry and no call already in progress. */
  lemma QuietStepPreserves(s: State, s': State)
    requires Inv(s)
    requires s' == s.(now := s'.now, calls := s'.calls) && s.now <= s'.now
    requires forall c :: c in s.calls ==> c in s'.calls && s'.calls[c] == s.calls[c]
    requires forall c :: c in s'.calls && c !in s.calls ==> JustStarted(s.tables, s'.calls[c])
    ensures Inv(s')
  {
    hide Query, Walk, Start;
    assert Recorded(s');
    assert ChecksCurrent(s');
    assert ReadersCurrent(s');
    assert forall k :: Live(s', k) ==> Live(s, k);
    StaleStaysCovered(s, s');
  }

  lemma StepPreserves(s: State, a: Action)
    requires Inv(s)
    ensures Inv(Apply(s, a))
  {
    hide Query, Walk, Start;
    if a.Tick? || a.Get? || a.Check? {
      QuietStepPreserves(s, Apply(s, a));
    } else if a.call in s.calls {
      var pc := s.calls[a.call];
      match a {
        case Fetch(c) => if pc.Missed? { FetchPreserves(s, c); }
        case Store(c) => if pc.Fetched? { StorePreserves(s, c); }
        case Write(c, newId) => if pc.Checked? && IsWrite(s.tables, pc.op, newId) { WritePreserves(s, c, newId); }
        case Invalidate(c) => if pc.Invalidating? { InvalidatePreserves(s, c); }
      }
    }
  }

  lemma {:induction false} RunKeepsInvariant(t: Tables, now: nat, actions: seq<Action>)
    ensures Inv(Execute(Initial(t, now), actions))
    decreases |actions|
  {
    if actions != [] {
      RunKeepsInvariant(t, now, actions[..|actions| - 1]);
      StepPreserves(Execute(Initial(t, now), actions[..|actions| - 1]), actions[|actions| - 1]);
    } else {
      var s := Initial(t, now);
      assert s.history[0].tables == t;
    }
  }

  // ---------------------------------------------------------------- the two theorems

  /**
   Under every interleaving, a hit is an answer the query really had when its reader asked, and its age
   is below the TTL plus the time that reader took from query to cache set.
   */
  lemma HitWasTrueAndIsYoung(t: Tables, start: nat, actions: seq<Action>, k: Key)
    requires Live(Execute(Initial(t, start), actions), k)
    ensures var s := Execute(Initial(t, start), actions);
            var e := s.cache[k];
            && WasAt(s.history, k, e.answer, e.readAt)
            && s.now - e.readAt < 24 * 60 * 60 + (e.setAt - e.readAt)
  {
    RunKeepsInvariant(t, start, actions);
  }

  /**
   A hit on an entry whose own reader was not overtaken is what the query answers now, unless some call in
   progress is still on its way to delete that very key. That call need not be the one that made the entry
   stale: a write that cuts another call's walk takes over its invalidation, so a finished write can stay
   invisible until the call that cut its walk has finished too. Other keys, other readers and other
   invalidations in progress do not matter.
   */
  lemma CompletedWritesAreVisible(t: Tables, start: nat, actions: seq<Action>, k: Key)
    requires var s := Execute(Initial(t, start), actions); Live(s, k) && !s.cache[k].overtaken && !Covered(s, k)
    ensures var s := Execute(Initial(t, start), actions);
            Query(s.tables, k) == Some(s.cache[k].answer)
  {
    RunKeepsInvariant(t, start, actions);
    hide Query;
  }

  // ---------------------------------------------------------------- a write that nothing interrupts

  /** The keys an invalidation deletes when it runs to its end on these tables. */
  predicate Drops(t: Tables, next: Next, k: Key) {
    match next
    case ToRow(ref) => ref.level != Curriculum && Walk(t, ref).Some? && (k.ListKey? || Walk(t, ref) == Some(k.id))
    case ToTree(id) => k.ListKey? || k.id == id
    case ToListKeys => k.ListKey?
    case ToLists(keys) => k in keys
  }

  function Remaining(next: Next): nat {
    match next
    case ToRow(ref) => 7 - ref.level.Height()
    case ToTree(_) => 3
    case ToListKeys => 2
    case ToLists(_) => 1
  }

  function Drain(s: State, call: nat, n: nat): State
    decreases n
  {
    if n == 0 then s else Drain(Apply(s, Invalidate(call)), call, n - 1)
  }

  lemma {:induction false} DrainIdle(s: State, call: nat, n: nat)
    requires call !in s.calls
    ensures Drain(s, call, n) == s
    decreases n
  {
    if n > 0 { DrainIdle(s, call, n - 1); }
  }

  lemma InvalidateOnce(s: State, call: nat, next: Next, k: Key)
    requires call in s.calls && s.calls[call] == Invalidating(next)
    ensures var s' := InvalidateStep(s, call, next);
            && s'.tables == s.tables && s'.now == s.now && s'.calls - {call} == s.calls - {call}
            && (Live(s', k) ==> s'.cache[k] == s.cache[k])
            && if call in s'.calls then
                 && s'.calls[call].Invalidating? && Remaining(s'.calls[call].next) < Remaining(next)
                 && (Live(s', k) && !Drops(s.tables, s'.calls[call].next, k) <==> Live(s, k) && !Drops(s.tables, next, k))
               else Live(s', k) <==> Live(s, k) && !Drops(s.tables, next, k)
  {
    if next.ToListKeys? {
      assert Live(s, k) && k.ListKey? ==> k in LiveListKeys(s);
    }
  }

  /** Within seven steps an invalidation ends, having deleted exactly the keys it names. */
  lemma {:induction false} InvalidationRunsOut(s: State, call: nat, n: nat, k: Key)
    requires call in s.calls && s.calls[call].Invalidating? && Remaining(s.calls[call].next) <= n
    ensures var s' := Drain(s, call, n);
            && s'.tables == s.tables && s'.now == s.now && s'.calls == s.calls - {call}
            && (Live(s', k) <==> Live(s, k) && !Drops(s.tables, s.calls[call].next, k))
            && (Live(s', k) ==> s'.cache[k] == s.cache[k])
    decreases n
  {
    hide InvalidateStep, Drops, Remaining;
    var next := s.calls[call].next;
    RemainingPositive(next);
    InvalidateOnce(s, call, next, k);
    var s1 := InvalidateStep(s, call, next);
    if call in s1.calls {
      InvalidationRunsOut(s1, call, n - 1, k);
    } else {
      DrainIdle(s1, call, n - 1);
    }
  }

  lemma RemainingPositive(next: Next)
    ensures 0 < Remaining(next) <= 7
  {
  }

  /** The steps of a write that nothing interrupts add up to the write of module CurriculumService; it overtakes readers only. */
  lemma UninterruptedWriteIsAtomic(s: State, call: nat, op: Op, newId: Id, k: Key)
    requires call !in s.calls && Known(s.tables, op) && Exists(s.tables, op) && IsWrite(s.tables, op, newId)
    ensures var s' := Drain(Apply(Apply(s, Check(call, op)), Write(call, newId)), call, 7);
            && s'.tables == s.tables[Target(op, newId) := NewRow(s.tables, op, s.now)]
            && s'.calls == (map c | c in s.calls :: Overtaken(s.tables, s'.tables, s.calls[c]))
            && (Live(s', k) <==> Live(s, k) && !Drops(s'.tables, Start(s.tables, op), k))
            && (Live(s', k) ==> s'.cache[k] == s.cache[k])
  {
    hide Exists, Known, NewRow, Start, Drops, Remaining, Overtaken, Query;
    var s1 := Apply(s, Check(call, op));
    assert s1 == s.(calls := s.calls[call := Checked(op, Start(s.tables, op))]);
    var s2 := Apply(s1, Write(call, newId));
    assert s2 == WriteStep(s1, call, op, Start(s.tables, op), newId);
    RemainingPositive(Start(s.tables, op));
    InvalidationRunsOut(s2, call, 7, k);
    assert s2.calls - {call} == map c | c in s.calls :: Overtaken(s.tables, s2.tables, s.calls[c]);
  }

  // ---------------------------------------------------------------- the condition is needed

  lemma ExecuteSnoc(s: State, actions: seq<Action>, a: Action)
    ensures Execute(s, actions + [a]) == Apply(Execute(s, actions), a)
  {
    assert (actions + [a])[..|actions|] == actions;
  }

  /** A reader queries the tree, then an update writes its row... */
  function ReadThenWrite(id: Id, op: Op): seq<Action> {
    [Get(0, TreeKey(id))] + [Fetch(0)] + [Check(1, op)] + [Write(1, 0)]
  }

  /** ...and invalidates to the end, and only then does the reader store its answer. */
  function OverlappingRun(id: Id, op: Op): seq<Action> {
    ReadThenWrite(id, op) + [Invalidate(1)] + [Invalidate(1)] + [Store(0)]
  }

  function TreeUpdate(id: Id, patch: CS.CurriculumPatch): Op {
    Update(Ref(Curriculum, id), CurriculumFields(patch))
  }

  function Updated(t: Tables, op: Op, now: nat): Tables
    requires Known(t, op) && op.Update?
  {
    t[op.target := NewRow(t, op, now)]
  }

  /** The state between the update's write and its first invalidation. */
  function AfterWrite(t: Tables, now: nat, id: Id, op: Op, answer: Answer): State
    requires Known(t, op) && op.Update?
  {
    State(now, Updated(t, op, now), map[], map[0 := Fetched(TreeKey(id), answer, now, true), 1 := Invalidating(ToTree(id))],
          [Moment(t, now), Moment(Updated(t, op, now), now)])
  }

  lemma ReadThenWriteReaches(t: Tables, now: nat, id: Id, patch: CS.CurriculumPatch)
    requires var op := TreeUpdate(id, patch);
             && Known(t, op) && Exists(t, op) && Query(t, TreeKey(id)).Some?
             && Query(Updated(t, op, now), TreeKey(id)) != Query(t, TreeKey(id))
    ensures var op := TreeUpdate(id, patch);
            Execute(Initial(t, now), ReadThenWrite(id, op)) == AfterWrite(t, now, id, op, Query(t, TreeKey(id)).value)
  {
    hide Query, Visible, NewRow, Execute, Apply;
    var k, op := TreeKey(id), TreeUpdate(id, patch);
    var s0 := Initial(t, now);
    var read := [Get(0, k)];
    assert [] + read == read;
    ExecuteSnoc(s0, [], Get(0, k));
    ExecuteSnoc(s0, read, Fetch(0));
    ExecuteSnoc(s0, read + [Fetch(0)], Check(1, op));
    ExecuteSnoc(s0, read + [Fetch(0)] + [Check(1, op)], Write(1, 0));
    ExecuteNothing(s0);
    ReadReaches(t, now, k);
    UpdateReaches(t, now, id, op, Query(t, k).value);
  }

  lemma ExecuteNothing(s: State)
    ensures Execute(s, []) == s
  {
  }

  lemma ReadReaches(t: Tables, now: nat, k: Key)
    ensures var s := Initial(t, now);
            Query(t, k).Some? ==> Apply(Apply(s, Get(0, k)), Fetch(0)) == s.(calls := map[0 := Fetched(k, Query(t, k).value, now, false)])
  {
    hide Query;
    var s := Initial(t, now);
    assert Apply(s, Get(0, k)) == s.(calls := map[0 := Missed(k)]);
  }

  lemma UpdateReaches(t: Tables, now: nat, id: Id, op: Op, answer: Answer)
    requires op.Update? && op.target == Ref(Curriculum, id) && Known(t, op) && Exists(t, op)
    requires Query(Updated(t, op, now), TreeKey(id)) != Query(t, TreeKey(id))
    ensures var s := Initial(t, now).(calls := map[0 := Fetched(TreeKey(id), answer, now, false)]);
            Apply(Apply(s, Check(1, op)), Write(1, 0)) == AfterWrite(t, now, id, op, answer)
  {
    hide Query, Visible, NewRow;
    var reader := Fetched(TreeKey(id), answer, now, false);
    var s := Initial(t, now).(calls := map[0 := reader]);
    var s1 := s.(calls := s.calls[1 := Checked(op, ToTree(id))]);
    assert Apply(s, Check(1, op)) == s1;
    var s2 := WriteStep(s1, 1, op, ToTree(id), 0);
    assert Apply(s1, Write(1, 0)) == s2;
    assert Overtaken(t, Updated(t, op, now), reader) == reader.(overtaken := true);
    assert s2.calls == AfterWrite(t, now, id, op, answer).calls;
  }

  lemma InvalidationFinishes(t: Tables, now: nat, id: Id, op: Op, answer: Answer)
    requires Known(t, op) && op.Update?
    ensures var s4 := AfterWrite(t, now, id, op, answer);
            Apply(Apply(s4, Invalidate(1)), Invalidate(1)) == s4.(calls := map[0 := Fetched(TreeKey(id), answer, now, true)])
  {
    hide Updated, Known;
    var s4 := AfterWrite(t, now, id, op, answer);
    var s5 := s4.(calls := s4.calls[1 := Invalidating(ToListKeys)]);
    assert Apply(s4, Invalidate(1)) == s5;
    assert LiveListKeys(s5) == {};
    assert s5.calls - {1} == map[0 := Fetched(TreeKey(id), answer, now, true)];
  }

  /** The root of the tree is the row itself, so an update that changes the row changes the answer. */
  lemma UpdateChangesAnswer(t: Tables, now: nat, id: Id, patch: CS.CurriculumPatch)
    requires Visible(t, Ref(Curriculum, id)) && NewRow(t, TreeUpdate(id, patch), now) != t[Ref(Curriculum, id)]
    ensures Query(t, TreeKey(id)).Some? && Query(Updated(t, TreeUpdate(id, patch), now), TreeKey(id)) != Query(t, TreeKey(id))
  {
    var r := Ref(Curriculum, id);
    var t' := Updated(t, TreeUpdate(id, patch), now);
    assert t'[r] != t[r];
    if Visible(t', r) {
      assert Build(t', r).row == t'[r] && Build(t, r).row == t[r];
    }
  }

  /** Any update that changes its row is lost to such a reader: with no call left in progress, hits return the old tree. */
  lemma OverlappedReaderLeavesStaleTree(t: Tables, now: nat, id: Id, patch: CS.CurriculumPatch)
    requires Visible(t, Ref(Curriculum, id)) && NewRow(t, TreeUpdate(id, patch), now) != t[Ref(Curriculum, id)]
    ensures var s := Execute(Initial(t, now), OverlappingRun(id, TreeUpdate(id, patch)));
            s.calls == map[] && Live(s, TreeKey(id)) && s.cache[TreeKey(id)].overtaken && !Current(s, TreeKey(id))
  {
    var k, op := TreeKey(id), TreeUpdate(id, patch);
    UpdateChangesAnswer(t, now, id, patch);
    var answer := Query(t, k).value;
    ReadThenWriteReaches(t, now, id, patch);
    InvalidationFinishes(t, now, id, op, answer);
    var s0, run := Initial(t, now), ReadThenWrite(id, op);
    var s4 := AfterWrite(t, now, id, op, answer);
    ExecuteSnoc(s0, run, Invalidate(1));
    ExecuteSnoc(s0, run + [Invalidate(1)], Invalidate(1));
    ExecuteSnoc(s0, run + [Invalidate(1)] + [Invalidate(1)], Store(0));
    var s6 := s4.(calls := map[0 := Fetched(k, answer, now, true)]);
    StoreEnds(s6, k, answer);
    hide *;
    assert s4.tables == Updated(t, op, now) by { AfterWriteTables(t, now, id, op, answer); }
    assert Execute(s0, OverlappingRun(id, op)) == Apply(s6, Store(0)) by { OverlappingRunIs(id, op); }
  }

  lemma StoreEnds(s: State, k: Key, answer: Answer)
    requires s.calls == map[0 := Fetched(k, answer, s.now, true)]
    ensures var s' := Apply(s, Store(0));
            && s'.calls == map[] && s'.tables == s.tables
            && Live(s', k) && s'.cache[k].overtaken && s'.cache[k].answer == answer
            && (Current(s', k) <==> Query(s.tables, k) == Some(answer))
  {
    hide Query;
  }

  lemma AfterWriteTables(t: Tables, now: nat, id: Id, op: Op, answer: Answer)
    requires Known(t, op) && op.Update?
    ensures var s := AfterWrite(t, now, id, op, answer); s.tables == Updated(t, op, now)
  {
  }

  lemma OverlappingRunIs(id: Id, op: Op)
    ensures OverlappingRun(id, op) == ReadThenWrite(id, op) + [Invalidate(1)] + [Invalidate(1)] + [Store(0)]
  {
  }
}
