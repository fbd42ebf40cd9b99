/**
 * The task store: the operations of the bot's database layer that change the
 * `entities` table, as methods of a class holding the table's rows.
 *
 * Every method keeps the table invariant (`Valid`): ids are positive, grow
 * along the table and stay below the next id to hand out, and no two rows
 * share the UNIQUE(user_id, type, title, parent_id) key. A statement that
 * would violate the key fails with an IntegrityError in SQLite; the methods
 * model that by leaving the table as it was and reporting failure, as the
 * Python code does when it catches the error.
 */
module Store {
  import opened Wrappers
  import opened Seqs
  import opened Text
  import opened Tokens
  import opened Similarity
  import opened Resolver
  import opened Table

  /** The dictionary `_creation_result` builds; every field has its default. */
  datatype CreationResult = CreationResult(
    id: Option<nat> := None,
    title: Option<string> := None,
    created: bool := false,
    restored: bool := false,
    duplicateDetected: bool := false,
    duplicateId: Option<nat> := None,
    duplicateTitle: Option<string> := None,
    similarity: Option<real> := None,
    autoUse: bool := false,
    missingParent: bool := false)

  /** The result reporting a near-duplicate; it may be used without asking when the score reaches 0.85. */
  function DuplicateResult(d: Duplicate): CreationResult {
    CreationResult(id := Some(d.id), title := Some(d.title), duplicateDetected := true, duplicateId := Some(d.id),
                   duplicateTitle := Some(d.title), similarity := Some(d.score), autoUse := d.score >= AutoUseThreshold)
  }

  // ----- the meta updates -----

  /** `mark_task_done`: status "done", deleted flag removed. */
  function MarkedDone(m: Meta): Meta {
    m.(status := Some("done"), deleted := false)
  }

  /** `delete_task`: deleted flag set. */
  function Deleted(m: Meta): Meta {
    m.(deleted := true)
  }

  /** `restore_task`: deleted, archived and archived_from removed, and a "done" status. */
  function Restored(m: Meta): Meta {
    Meta(false, if m.status == Some("done") then None else m.status, false, None)
  }

  /** `add_task` finding the task done: the status removed. */
  function Reopened(m: Meta): Meta {
    m.(deleted := false, status := None)
  }

  /** `delete_list` on each task of the list: archived, remembering the list's name when it has one. */
  function Archived(m: Meta, listName: string): Meta {
    m.(deleted := false, archived := true, archivedFrom := if listName != [] then Some(listName) else m.archivedFrom)
  }

  function SetMeta(rows: seq<Entity>, k: nat, m: Meta): (r: seq<Entity>)
    requires k < |rows|
    ensures |r| == |rows| && r[k] == rows[k].(meta := m)
    ensures forall j :: 0 <= j < |rows| && j != k ==> r[j] == rows[j]
  {
    rows[k := rows[k].(meta := m)]
  }

  /** A done task leaves the active tasks and becomes restorable. */
  lemma MarkDoneLeavesActive(rows: seq<Entity>, k: nat, owner: int, listId: nat)
    requires k < |rows| && TaskOf(owner, listId, rows[k])
    ensures var rows' := SetMeta(rows, k, MarkedDone(rows[k].meta));
            k !in ActiveTasks(rows', owner, listId) && k in RestorableTasks(rows', owner, listId)
  {
    var rows' := SetMeta(rows, k, MarkedDone(rows[k].meta));
    assert !Active(rows'[k]) && Restorable(rows'[k]);
  }

  /** A deleted task leaves the active tasks and becomes restorable. */
  lemma DeleteLeavesActive(rows: seq<Entity>, k: nat, owner: int, listId: nat)
    requires k < |rows| && TaskOf(owner, listId, rows[k])
    ensures var rows' := SetMeta(rows, k, Deleted(rows[k].meta));
            k !in ActiveTasks(rows', owner, listId) && k in RestorableTasks(rows', owner, listId)
  {
    var rows' := SetMeta(rows, k, Deleted(rows[k].meta));
    assert !Active(rows'[k]) && Restorable(rows'[k]);
  }

  /** A restored task is active again and no longer restorable. */
  lemma RestoreReturnsToActive(rows: seq<Entity>, k: nat, owner: int, listId: nat)
    requires k < |rows| && TaskOf(owner, listId, rows[k])
    ensures var rows' := SetMeta(rows, k, Restored(rows[k].meta));
            k in ActiveTasks(rows', owner, listId) && k !in RestorableTasks(rows', owner, listId)
  {
    var rows' := SetMeta(rows, k, Restored(rows[k].meta));
    assert Active(rows'[k]) && !Restorable(rows'[k]);
  }

  /** Restoring a restorable task always changes its meta, so `restore_task`'s "already active" answer never occurs. */
  lemma RestoreAlwaysChanges(e: Entity)
    requires Restorable(e)
    ensures Restored(e.meta) != e.meta
  {
  }

  /** Restoring undoes a deletion of an open task that was never archived. */
  lemma RestoreUndoesDelete(m: Meta)
    requires !m.deleted && !m.archived && m.archivedFrom.None? && m.status != Some("done")
    ensures Restored(Deleted(m)) == m
  {
  }

  /** Restoring undoes marking done a task created without a status. */
  lemma RestoreUndoesMarkDone(m: Meta)
    requires !m.deleted && !m.archived && m.archivedFrom.None? && m.status.None?
    ensures Restored(MarkedDone(m)) == m
  {
  }

  // ----- the table invariant -----

  ghost predicate IdsBelow(rows: seq<Entity>, nextId: nat) {
    forall i :: 0 <= i < |rows| ==> 0 < rows[i].id < nextId
  }

  ghost predicate IdsIncreasing(rows: seq<Entity>) {
    forall i, j :: 0 <= i < j < |rows| ==> rows[i].id < rows[j].id
  }

  /** Lists are created without a parent, and only tasks are ever moved. */
  ghost predicate ListsTopLevel(rows: seq<Entity>) {
    forall i :: 0 <= i < |rows| && rows[i].kind == List ==> rows[i].parent.None?
  }

  ghost predicate Invariant(rows: seq<Entity>, nextId: nat) {
    Unique(rows) && IdsBelow(rows, nextId) && IdsIncreasing(rows) && ListsTopLevel(rows)
  }

  /** Two tables with the same rows up to their meta. */
  predicate SameKeys(a: seq<Entity>, b: seq<Entity>) {
    |a| == |b| &&
    forall j :: 0 <= j < |a| ==>
      a[j].id == b[j].id && a[j].owner == b[j].owner && a[j].kind == b[j].kind &&
      a[j].title == b[j].title && a[j].parent == b[j].parent
  }

  /** Changing only meta keeps the invariant. */
  lemma MetaChangeKeepsInvariant(a: seq<Entity>, b: seq<Entity>, nextId: nat)
    requires Invariant(a, nextId) && SameKeys(a, b)
    ensures Invariant(b, nextId)
  {
    forall i, j | 0 <= i < j < |b| ensures !SameKey(b[i], b[j]) {
      assert !SameKey(a[i], a[j]);
    }
  }

  /** Rewriting one row's title or parent without a key collision keeps the invariant. */
  lemma WriteKeepsInvariant(rows: seq<Entity>, nextId: nat, k: nat, e: Entity)
    requires Invariant(rows, nextId) && k < |rows| && e.id == rows[k].id && e.kind == rows[k].kind
    requires e.kind == List ==> e.parent.None?
    requires !Collides(rows, e, k)
    ensures Invariant(rows[k := e], nextId)
  {
    WriteKeepsUnique(rows, k, e);
  }

  /** Inserting a row with the next id and no key collision keeps the invariant. */
  lemma InsertKeepsInvariant(rows: seq<Entity>, nextId: nat, e: Entity)
    requires Invariant(rows, nextId) && nextId > 0 && e.id == nextId && (e.kind == List ==> e.parent.None?)
    requires !Collides(rows, e, |rows|)
    ensures Invariant(rows + [e], nextId + 1)
  {
    AppendKeepsUnique(rows, e);
  }

  // ----- which task an operation acts on -----

  /** A task of the user's live list named `listName` (the list `_get_list_id` finds). */
  predicate InNamedList(rows: seq<Entity>, owner: int, listName: string, k: nat) {
    GetListId(rows, owner, listName).Some? && k < |rows| &&
    TaskOf(owner, rows[GetListId(rows, owner, listName).value].id, rows[k])
  }

  /** The row at the candidate position the resolver chose. */
  function Chosen(pos: seq<nat>, c: Option<nat>): (r: Option<nat>)
    requires c.Some? ==> c.value < |pos|
    ensures r.Some? <==> c.Some?
    ensures r.Some? ==> r.value in pos
  {
    if c.Some? then Some(pos[c.value]) else None
  }

  /** The fuzzy search of the `*_fuzzy` operations: `_score_candidates(_tokenize(pattern), cleaned, candidates)`. */
  function FuzzyChoice(pattern: string, cands: seq<Candidate>): (r: Option<nat>)
    ensures r.Some? ==> r.value < |cands|
  {
    ScoreChoice((set t | t in Tokenize(pattern)), CleanPattern(pattern), cands)
  }

  /** Runs the fuzzy scorer on the tokens of the pattern and its cleaned form. */
  method FuzzyCandidate(pattern: string, cands: seq<Candidate>) returns (r: Option<nat>)
    ensures r == FuzzyChoice(pattern, cands)
  {
    r := ScoreCandidates(Tokenize(pattern), CleanPattern(pattern), cands);
  }

  /**
   * The candidate of `delete_task_fuzzy`: the first whose lower-cased title
   * is nearest the lower-cased pattern, provided it lies within half the
   * pattern's length.
   */
  function NearestWithin(cands: seq<Candidate>, cleaned: string): (r: Option<nat>)
    requires |cands| > 0
    ensures r.Some? ==> r.value < |cands| && EditDistance(Lower(cands[r.value].title), Lower(cleaned)) <= |cleaned| / 2
    ensures r.Some? ==> forall j :: 0 <= j < |cands| ==>
              EditDistance(Lower(cands[r.value].title), Lower(cleaned)) <= EditDistance(Lower(cands[j].title), Lower(cleaned))
    ensures r.None? ==> forall j :: 0 <= j < |cands| ==> EditDistance(Lower(cands[j].title), Lower(cleaned)) > |cleaned| / 2
  {
    var k := ClosestByDistance(cands, Lower(cleaned));
    if EditDistance(Lower(cands[k].title), Lower(cleaned)) > |cleaned| / 2 then None else Some(k)
  }

  /** Positions of rows, as handed to the resolver. */
  predicate RowPositions(rows: seq<Entity>, pos: seq<nat>) {
    forall k :: 0 <= k < |pos| ==> pos[k] < |rows|
  }

  /** `_select_candidate(title, candidates)` over the rows at `pos`; no candidates, no choice. */
  function ByTitle(rows: seq<Entity>, pos: seq<nat>, taskTitle: string): (r: Option<nat>)
    requires RowPositions(rows, pos)
    ensures r.Some? ==> r.value in pos
  {
    if pos == [] then None else Chosen(pos, SelectChoice(taskTitle, CandidatesAt(rows, pos)))
  }

  /** `_score_candidates(_tokenize(pattern), cleaned, candidates)` over the rows at `pos`. */
  function ByPattern(rows: seq<Entity>, pos: seq<nat>, pattern: string): (r: Option<nat>)
    requires RowPositions(rows, pos)
    ensures r.Some? ==> r.value in pos
  {
    if pos == [] then None else Chosen(pos, FuzzyChoice(pattern, CandidatesAt(rows, pos)))
  }

  /** The nearest row at `pos` by edit distance, if near enough. */
  function ByDistance(rows: seq<Entity>, pos: seq<nat>, cleaned: string): (r: Option<nat>)
    requires RowPositions(rows, pos)
    ensures r.Some? ==> r.value in pos
  {
    if pos == [] then None else Chosen(pos, NearestWithin(CandidatesAt(rows, pos), cleaned))
  }

  method PickByTitle(rows: seq<Entity>, pos: seq<nat>, taskTitle: string) returns (r: Option<nat>)
    requires RowPositions(rows, pos)
    ensures r == ByTitle(rows, pos, taskTitle)
  {
    var cands := CandidatesAt(rows, pos);
    if cands == [] {
      return None;
    }
    var c := SelectCandidate(taskTitle, cands);
    r := if c.Some? then Some(pos[c.value]) else None;
  }

  method PickByPattern(rows: seq<Entity>, pos: seq<nat>, pattern: string) returns (r: Option<nat>)
    requires RowPositions(rows, pos)
    ensures r == ByPattern(rows, pos, pattern)
  {
    var cands := CandidatesAt(rows, pos);
    if cands == [] {
      return None;
    }
    var c := FuzzyCandidate(pattern, cands);
    r := if c.Some? then Some(pos[c.value]) else None;
  }

  /** The task `mark_task_done` marks: the resolver's choice among the list's active tasks. */
  function MarkDoneTarget(rows: seq<Entity>, owner: int, listName: string, taskTitle: string): (r: Option<nat>)
    ensures r.Some? ==> InNamedList(rows, owner, listName, r.value) && Active(rows[r.value])
  {
    match GetListId(rows, owner, listName)
    case None => None
    case Some(l) => ByTitle(rows, ActiveTasks(rows, owner, rows[l].id), taskTitle)
  }

  /** The task `mark_task_done_fuzzy` marks. */
  function MarkDoneFuzzyTarget(rows: seq<Entity>, owner: int, listName: string, pattern: string): (r: Option<nat>)
    ensures pattern == [] || CleanPattern(pattern) == [] ==> r.None?
    ensures r.Some? ==> InNamedList(rows, owner, listName, r.value) && Active(rows[r.value])
  {
    if pattern == [] || CleanPattern(pattern) == [] then None
    else match GetListId(rows, owner, listName)
      case None => None
      case Some(l) => ByPattern(rows, ActiveTasks(rows, owner, rows[l].id), pattern)
  }

  /** The task `delete_task` deletes: the live task with that title, unless it is done. */
  function DeleteTaskTarget(rows: seq<Entity>, owner: int, listName: string, taskTitle: string): (r: Option<nat>)
    ensures r.Some? ==> InNamedList(rows, owner, listName, r.value) && Active(rows[r.value])
    ensures r.Some? ==> SqlLower(rows[r.value].title) == SqlLower(taskTitle)
  {
    match GetListId(rows, owner, listName)
    case None => None
    case Some(l) =>
      match GetTaskRow(rows, owner, rows[l].id, taskTitle)
      case None => None
      case Some(k) => if Done(rows[k]) then None else Some(k)
  }

  /**
   * The task `delete_task_fuzzy` deletes: the active task whose lower-cased
   * title is nearest the cleaned pattern, when within half its length.
   */
  function DeleteFuzzyTarget(rows: seq<Entity>, owner: int, listName: string, pattern: string): (r: Option<nat>)
    ensures pattern == [] || CleanPattern(pattern) == [] ==> r.None?
    ensures r.Some? ==> InNamedList(rows, owner, listName, r.value) && Active(rows[r.value])
  {
    if pattern == [] || CleanPattern(pattern) == [] then None
    else match GetListId(rows, owner, listName)
      case None => None
      case Some(l) => ByDistance(rows, ActiveTasks(rows, owner, rows[l].id), CleanPattern(pattern))
  }

  /** The task numbered `index` (from 1) among the list's active tasks, as `get_list_tasks` numbers them. */
  function IndexTarget(rows: seq<Entity>, owner: int, listName: string, index: int): (r: Option<nat>)
    ensures r.Some? ==> InNamedList(rows, owner, listName, r.value) && Active(rows[r.value])
    ensures r.Some? ==> 1 <= index <= |ListTasks(rows, owner, listName)| &&
                        ListTasks(rows, owner, listName)[index - 1] == (index, rows[r.value].title)
    ensures r.None? ==> index < 1 || index > |ListTasks(rows, owner, listName)|
  {
    match GetListId(rows, owner, listName)
    case None => None
    case Some(l) =>
      var act := ActiveTasks(rows, owner, rows[l].id);
      if act == [] || index < 1 || index > |act| then None else Some(act[index - 1])
  }

  /** The task `restore_task` restores: the resolver's choice among the list's restorable tasks. */
  function RestoreTarget(rows: seq<Entity>, owner: int, listName: string, taskTitle: string): (r: Option<nat>)
    ensures r.Some? ==> InNamedList(rows, owner, listName, r.value) && Restorable(rows[r.value])
  {
    match GetListId(rows, owner, listName)
    case None => None
    case Some(l) => ByTitle(rows, RestorableTasks(rows, owner, rows[l].id), taskTitle)
  }

  /** The task `restore_task_fuzzy` restores. */
  function RestoreFuzzyTarget(rows: seq<Entity>, owner: int, listName: string, pattern: string): (r: Option<nat>)
    ensures pattern == [] || CleanPattern(pattern) == [] ==> r.None?
    ensures r.Some? ==> InNamedList(rows, owner, listName, r.value) && Restorable(rows[r.value])
  {
    if pattern == [] || CleanPattern(pattern) == [] then None
    else match GetListId(rows, owner, listName)
      case None => None
      case Some(l) => ByPattern(rows, RestorableTasks(rows, owner, rows[l].id), pattern)
  }

  /** The filter of `delete_list`: a list of the user with exactly that title, deleted or not. */
  predicate ExactList(owner: int, listName: string, e: Entity) {
    e.owner == owner && e.kind == List && e.title == listName
  }

  /** The row `delete_list` acts on: the first list of the user with exactly that title, deleted or not. */
  function ListToDelete(rows: seq<Entity>, owner: int, listName: string): (r: Option<nat>)
    ensures r.Some? ==> r.value < |rows| && ExactList(owner, listName, rows[r.value])
    ensures r.Some? ==> forall j :: 0 <= j < r.value ==> !ExactList(owner, listName, rows[j])
    ensures r.None? ==> forall j :: 0 <= j < |rows| ==> !ExactList(owner, listName, rows[j])
  {
    FirstWhere(rows, (e: Entity) => ExactList(owner, listName, e))
  }

  /** The row `delete_list` is evidently meant to act on: the first live list of the user with exactly that title. */
  function LiveListToDelete(rows: seq<Entity>, owner: int, listName: string): (r: Option<nat>)
    ensures r.Some? ==> r.value < |rows| && ExactList(owner, listName, rows[r.value]) && Live(rows[r.value])
    ensures r.Some? ==> forall j :: 0 <= j < r.value ==> !(ExactList(owner, listName, rows[j]) && Live(rows[j]))
    ensures r.None? ==> forall j :: 0 <= j < |rows| ==> !(ExactList(owner, listName, rows[j]) && Live(rows[j]))
  {
    FirstWhere(rows, (e: Entity) => ExactList(owner, listName, e) && Live(e))
  }

  /** The table after `delete_list` removed the list at `l`: the list deleted, each of its tasks archived. */
  function ListDeleted(rows: seq<Entity>, l: nat, owner: int, listName: string): (r: seq<Entity>)
    requires l < |rows|
    ensures |r| == |rows|
  {
    seq(|rows|, i requires 0 <= i < |rows| =>
      if i == l then rows[i].(meta := Deleted(rows[i].meta))
      else if TaskOf(owner, rows[l].id, rows[i]) then rows[i].(meta := Archived(rows[i].meta, listName))
      else rows[i])
  }

  /**
   * After `delete_list` the list is flagged deleted and gone from the live
   * lists; each of its tasks has lost its deleted flag, is archived with the
   * list's name as its source (for a non-empty name), keeps its status and
   * is restorable, and `_suggest_new_list_for_restore` offers to create a new
   * list for it; every other row is unchanged. When no other live list has
   * that name under `LOWER()`, no live list of that name is left at all.
   */
  lemma DeleteListArchivesTasks(rows: seq<Entity>, l: nat, owner: int, listName: string)
    requires l < |rows| && ExactList(owner, listName, rows[l])
    ensures var rows' := ListDeleted(rows, l, owner, listName);
            rows'[l] == rows[l].(meta := rows[l].meta.(deleted := true)) &&
            !Live(rows'[l]) && GetListId(rows', owner, listName) != Some(l)
    ensures var rows' := ListDeleted(rows, l, owner, listName);
            forall i :: 0 <= i < |rows| && TaskOf(owner, rows[l].id, rows[i]) ==>
              rows'[i].(meta := rows[i].meta) == rows[i] &&
              rows'[i].meta.archived && !rows'[i].meta.deleted && rows'[i].meta.status == rows[i].meta.status &&
              (listName != [] ==> rows'[i].meta.archivedFrom == Some(listName)) &&
              Restorable(rows'[i]) && (listName != [] ==> SuggestNewList(rows', owner, listName, rows[i].title).Some?)
    ensures var rows' := ListDeleted(rows, l, owner, listName);
            forall j :: 0 <= j < |rows| && j != l && !TaskOf(owner, rows[l].id, rows[j]) ==> rows'[j] == rows[j]
    ensures (forall j :: 0 <= j < |rows| && j != l ==> !LiveListNamed(owner, listName, rows[j])) ==>
              GetListId(ListDeleted(rows, l, owner, listName), owner, listName).None?
  {
    var rows' := ListDeleted(rows, l, owner, listName);
    if forall j :: 0 <= j < |rows| && j != l ==> !LiveListNamed(owner, listName, rows[j]) {
      forall j | 0 <= j < |rows'| ensures !LiveListNamed(owner, listName, rows'[j]) {
        assert j == l || TaskOf(owner, rows[l].id, rows[j]) || rows'[j] == rows[j];
      }
    }
    forall i | 0 <= i < |rows| && TaskOf(owner, rows[l].id, rows[i])
      ensures Restorable(rows'[i]) && (listName != [] ==> SuggestNewList(rows', owner, listName, rows[i].title).Some?)
    {
      if listName != [] {
        assert ArchivedFrom(owner, listName, rows[i].title, rows'[i]);
      }
    }
  }

  /** A user's deleted list "Дом" (id 1) ahead of a live list "Дом" (id 2). */
  const StaleListExample := [Entity(1, 7, List, "Дом", None, Meta(true, None, false, None)),
                             Entity(2, 7, List, "Дом", None, NoMeta)]

  /**
   * `delete_list("Дом")` on that table picks the deleted row, deletes it once
   * more and answers 1, while the live list "Дом" is still found.
   */
  lemma DeleteListPicksStaleRow()
    ensures ListToDelete(StaleListExample, 7, "Дом") == Some(0)
    ensures GetListId(ListDeleted(StaleListExample, 0, 7, "Дом"), 7, "Дом") == Some(1)
  {
    var rows' := ListDeleted(StaleListExample, 0, 7, "Дом");
    assert ExactList(7, "Дом", StaleListExample[0]);
    assert rows'[0].meta.deleted && rows'[1] == StaleListExample[1];
    assert LiveListNamed(7, "Дом", rows'[1]);
  }

  /**
   * Deleting the first live list with that title instead: it is no longer
   * live, and unless another live list has the name under `LOWER()`,
   * `_get_list_id` finds no list of that name afterwards.
   */
  lemma LiveListDeletedIsGone(rows: seq<Entity>, owner: int, listName: string)
    ensures var l := LiveListToDelete(rows, owner, listName);
            l.Some? ==> Live(rows[l.value]) && !Live(ListDeleted(rows, l.value, owner, listName)[l.value])
    ensures var l := LiveListToDelete(rows, owner, listName);
            l.Some? && (forall j :: 0 <= j < |rows| && j != l.value ==> !LiveListNamed(owner, listName, rows[j])) ==>
              GetListId(ListDeleted(rows, l.value, owner, listName), owner, listName).None?
  {
    var l := LiveListToDelete(rows, owner, listName);
    if l.Some? {
      DeleteListArchivesTasks(rows, l.value, owner, listName);
    }
  }

  /** On the table with the stale row, the intended target is the live list, and "Дом" is gone after its deletion. */
  lemma DeleteLiveListSkipsStaleRow()
    ensures LiveListToDelete(StaleListExample, 7, "Дом") == Some(1)
    ensures GetListId(ListDeleted(StaleListExample, 1, 7, "Дом"), 7, "Дом").None?
  {
    assert !Live(StaleListExample[0]) && ExactList(7, "Дом", StaleListExample[1]);
    assert !LiveListNamed(7, "Дом", StaleListExample[0]);
    DeleteListArchivesTasks(StaleListExample, 1, 7, "Дом");
  }

  /**
   * A user's list "Дом" holding the open task "молоко", then deleted: the
   * task is in neither `get_completed_tasks` nor `get_deleted_tasks`.
   */
  lemma DeletedListHidesOpenTask()
    ensures ListDeleted(NewTaskExample, 0, 7, "Дом")[1].title == "молоко"
    ensures CompletedTasks(ListDeleted(NewTaskExample, 0, 7, "Дом"), 7, 15) == []
    ensures DeletedTasks(ListDeleted(NewTaskExample, 0, 7, "Дом"), 7, 15) == []
  {
    var rows' := ListDeleted(NewTaskExample, 0, 7, "Дом");
    assert rows'[0].meta.deleted && rows'[1].meta == Meta(false, None, true, Some("Дом"));
    forall i | 0 <= i < |rows'| ensures !CompletedFilter(7)(rows'[i]) && !DeletedFilter(7)(rows'[i]) {
      assert i == 0 || i == 1;
    }
    NewestOfNone(rows', CompletedFilter(7), 15);
    NewestOfNone(rows', DeletedFilter(7), 15);
  }

  /**
   * Every task of a deleted list stays visible: a done one among the
   * completed tasks under "Архив • <list name>", and any other among the
   * removed tasks, the history view that also lists archived open tasks.
   */
  lemma DeletedListTasksStayVisible(rows: seq<Entity>, l: nat, owner: int, listName: string, i: nat, limit: int)
    requires l < |rows| && ExactList(owner, listName, rows[l])
    requires i < |rows| && TaskOf(owner, rows[l].id, rows[i])
    requires limit < 0
    ensures var rows' := ListDeleted(rows, l, owner, listName);
            Done(rows[i]) ==>
              (CompletedLabel(rows', rows'[i]), rows[i].title) in CompletedTasks(rows', owner, limit) &&
              (listName != [] ==> CompletedLabel(rows', rows'[i]) == ArchiveLabel + " • " + listName)
    ensures var rows' := ListDeleted(rows, l, owner, listName);
            !Done(rows[i]) ==> (ParentTitle(rows', rows'[i]), rows[i].title) in RemovedTasks(rows', owner, limit)
  {
    var rows' := ListDeleted(rows, l, owner, listName);
    assert rows'[i] == rows[i].(meta := Archived(rows[i].meta, listName));
    if Done(rows[i]) {
      assert CompletedRow(owner, rows'[i]);
      CompletedTasksListsAll(rows', owner, limit, i);
    } else {
      assert RemovedFilter(owner)(rows'[i]);
      DeletedTasksListsAll(rows', RemovedFilter(owner), limit, i);
    }
  }

  /** Renaming a list to a name no live list has makes `_get_list_id` find it under the new name. */
  lemma RenamedListIsFound(rows: seq<Entity>, owner: int, oldName: string, newName: string)
    requires GetListId(rows, owner, oldName).Some? && GetListId(rows, owner, newName).None?
    ensures var l := GetListId(rows, owner, oldName).value;
            GetListId(rows[l := rows[l].(title := newName)], owner, newName) == Some(l)
  {
    var l := GetListId(rows, owner, oldName).value;
    var rows' := rows[l := rows[l].(title := newName)];
    assert LiveListNamed(owner, newName, rows'[l]);
    forall j | 0 <= j < l ensures !LiveListNamed(owner, newName, rows'[j]) {
      assert rows'[j] == rows[j];
    }
    FirstWhereUnique(rows', (e: Entity) => LiveListNamed(owner, newName, e), Some(l));
  }

  /** A task `add_task` creates is numbered last by `get_list_tasks`. */
  lemma CreatedTaskNumberedLast(rows: seq<Entity>, owner: int, listId: nat, e: Entity)
    requires TaskOf(owner, listId, e) && e.meta == NoMeta
    ensures ActiveTasks(rows + [e], owner, listId) == ActiveTasks(rows, owner, listId) + [|rows|]
  {
    assert (rows + [e])[..|rows|] == rows;
  }

  /** The task at the end of `rows + [e]` (a task `add_task` created) against the two status tests. */
  lemma CreatedTaskStatus(e: Entity)
    requires e.meta == NoMeta
    ensures OpenIntended(e) && !OpenAsWritten(e)
  {
  }

  class EntityStore {
    var rows: seq<Entity>
    var nextId: nat

    ghost predicate Valid()
      reads this
    {
      nextId > 0 && Invariant(rows, nextId)
    }

    /** An empty table; SQLite's AUTOINCREMENT hands out 1 first. */
    constructor ()
      ensures Valid() && rows == [] && nextId == 1
    {
      rows := [];
      nextId := 1;
    }

    /** `_find_semantic_duplicate`: scan the candidate rows keeping the strictly best score above the threshold. */
    method FindSemanticDuplicate(owner: int, title: string, kind: Kind, parent: Option<nat>, threshold: real)
      returns (r: Option<Duplicate>)
      ensures r == SemanticDuplicate(rows, owner, title, kind, parent, threshold)
    {
      var cleaned := Strip(title);
      if cleaned == [] {
        return None;
      }
      r := ScanBest(rows, DuplicateFilter(owner, kind, parent), DuplicateScore(cleaned), threshold);
    }

    /** `create_list`: a blank name creates nothing; a near-duplicate is reported unless forced; otherwise the stripped name is inserted. */
    method CreateList(owner: int, listName: string, force: bool) returns (res: CreationResult)
      requires Valid()
      modifies this
      ensures Valid()
      ensures Strip(listName) == [] ==> rows == old(rows) && nextId == old(nextId) && res == CreationResult(title := Some(listName))
      ensures var dup := SemanticDuplicate(old(rows), owner, Strip(listName), List, None, DuplicateThreshold);
              Strip(listName) != [] && !force && dup.Some? ==>
                rows == old(rows) && nextId == old(nextId) && res == DuplicateResult(dup.value)
      ensures var dup := SemanticDuplicate(old(rows), owner, Strip(listName), List, None, DuplicateThreshold);
              Strip(listName) != [] && (force || dup.None?) ==>
                rows == old(rows) + [Entity(old(nextId), owner, List, Strip(listName), None, NoMeta)] &&
                nextId == old(nextId) + 1 &&
                res == CreationResult(id := Some(old(nextId)), title := Some(Strip(listName)), created := true)
    {
      var cleaned := Strip(listName);
      if cleaned == [] {
        return CreationResult(title := Some(listName));
      }
      if !force {
        var dup := FindSemanticDuplicate(owner, cleaned, List, None, DuplicateThreshold);
        if dup.Some? {
          return DuplicateResult(dup.value);
        }
      }
      var e := Entity(nextId, owner, List, cleaned, None, NoMeta);
      Insert(e);
      res := CreationResult(id := Some(e.id), title := Some(cleaned), created := true);
    }

    /** The `INSERT`: appends `e` under the next id. */
    method Insert(e: Entity)
      requires Valid() && e.id == nextId && (e.kind == List ==> e.parent.None?) && !Collides(rows, e, |rows|)
      modifies this
      ensures Valid() && rows == old(rows) + [e] && nextId == old(nextId) + 1
    {
      InsertKeepsInvariant(rows, nextId, e);
      rows := rows + [e];
      nextId := nextId + 1;
    }

    /** `rename_list`: only a live list, and only to a name no live list has; the new title is taken as given. */
    method RenameList(owner: int, oldName: string, newName: string) returns (n: nat)
      requires Valid()
      modifies this
      ensures Valid() && nextId == old(nextId)
      ensures GetListId(old(rows), owner, oldName).None? || GetListId(old(rows), owner, newName).Some? ==>
                n == 0 && rows == old(rows)
      ensures var l := GetListId(old(rows), owner, oldName);
              l.Some? && GetListId(old(rows), owner, newName).None? ==>
                n == 1 && rows == old(rows)[l.value := old(rows)[l.value].(title := newName)]
    {
      var l := GetListId(rows, owner, oldName);
      if l.None? {
        return 0;
      }
      if GetListId(rows, owner, newName).Some? {
        return 0;
      }
      var e := rows[l.value].(title := newName);
      WriteKeepsInvariant(rows, nextId, l.value, e);
      rows := rows[l.value := e];
      return 1;
    }

    /**
     * `add_task`: into any list of that name, deleted or not. An existing live
     * task with that title is reopened when done and reported as a duplicate
     * otherwise; a near-duplicate is reported unless forced; otherwise the
     * title is inserted as given, unless a deleted task already holds it.
     */
    method AddTask(owner: int, listName: string, title: string, force: bool) returns (res: CreationResult)
      requires Valid()
      modifies this
      ensures Valid()
      ensures FindList(old(rows), owner, listName).None? ==>
                rows == old(rows) && nextId == old(nextId) && res == CreationResult(title := Some(title), missingParent := true)
      ensures var fl := FindList(old(rows), owner, listName);
              fl.Some? ==>
                var listId := old(rows)[fl.value].id;
                var ex := GetTaskRow(old(rows), owner, listId, title);
                (ex.Some? && Done(old(rows)[ex.value]) ==>
                   var t := old(rows)[ex.value];
                   rows == SetMeta(old(rows), ex.value, Reopened(t.meta)) && nextId == old(nextId) &&
                   res == CreationResult(id := Some(t.id), title := Some(t.title), restored := true)) &&
                (ex.Some? && !Done(old(rows)[ex.value]) ==>
                   var t := old(rows)[ex.value];
                   rows == old(rows) && nextId == old(nextId) &&
                   res == CreationResult(id := Some(t.id), title := Some(t.title), duplicateDetected := true,
                                         duplicateId := Some(t.id), duplicateTitle := Some(t.title),
                                         similarity := Some(1.0), autoUse := true))
      ensures var fl := FindList(old(rows), owner, listName);
              fl.Some? && GetTaskRow(old(rows), owner, old(rows)[fl.value].id, title).None? ==>
                var listId := old(rows)[fl.value].id;
                var dup := SemanticDuplicate(old(rows), owner, title, Task, Some(listId), DuplicateThreshold);
                var e := Entity(old(nextId), owner, Task, title, Some(listId), NoMeta);
                (!force && dup.Some? ==> rows == old(rows) && nextId == old(nextId) && res == DuplicateResult(dup.value)) &&
                ((force || dup.None?) && Collides(old(rows), e, |old(rows)|) ==>
                   rows == old(rows) && nextId == old(nextId) && res == CreationResult(title := Some(title))) &&
                ((force || dup.None?) && !Collides(old(rows), e, |old(rows)|) ==>
                   rows == old(rows) + [e] && nextId == old(nextId) + 1 &&
                   res == CreationResult(id := Some(e.id), title := Some(title), created := true))
    {
      var fl := FindList(rows, owner, listName);
      if fl.None? {
        return CreationResult(title := Some(title), missingParent := true);
      }
      var listId := rows[fl.value].id;
      var ex := GetTaskRow(rows, owner, listId, title);
      if ex.Some? {
        var t := rows[ex.value];
        if Done(t) {
          MetaChangeKeepsInvariant(rows, SetMeta(rows, ex.value, Reopened(t.meta)), nextId);
          rows := SetMeta(rows, ex.value, Reopened(t.meta));
          return CreationResult(id := Some(t.id), title := Some(t.title), restored := true);
        }
        return CreationResult(id := Some(t.id), title := Some(t.title), duplicateDetected := true,
                              duplicateId := Some(t.id), duplicateTitle := Some(t.title),
                              similarity := Some(1.0), autoUse := true);
      }
      if !force {
        var dup := FindSemanticDuplicate(owner, title, Task, Some(listId), DuplicateThreshold);
        if dup.Some? {
          return DuplicateResult(dup.value);
        }
      }
      var e := Entity(nextId, owner, Task, title, Some(listId), NoMeta);
      if Collides(rows, e, |rows|) {
        return CreationResult(title := Some(title));
      }
      Insert(e);
      res := CreationResult(id := Some(e.id), title := Some(title), created := true);
    }

    /** `update_task`: retitle the live task, unless a live task already has the new title or the new key is taken. */
    method UpdateTask(owner: int, listName: string, oldTitle: string, newTitle: string) returns (n: nat)
      requires Valid()
      modifies this
      ensures Valid() && nextId == old(nextId)
      ensures n <= 1 && (n == 0 ==> rows == old(rows))
      ensures var l := GetListId(old(rows), owner, listName);
              n == 1 <==>
                l.Some? &&
                var listId := old(rows)[l.value].id;
                var k := GetTaskRow(old(rows), owner, listId, oldTitle);
                k.Some? && GetTaskRow(old(rows), owner, listId, newTitle).None? &&
                !Collides(old(rows), old(rows)[k.value].(title := newTitle), k.value)
      ensures n == 1 ==>
                var listId := old(rows)[GetListId(old(rows), owner, listName).value].id;
                var k := GetTaskRow(old(rows), owner, listId, oldTitle).value;
                rows == old(rows)[k := old(rows)[k].(title := newTitle)]
    {
      var l := GetListId(rows, owner, listName);
      if l.None? {
        return 0;
      }
      var listId := rows[l.value].id;
      var k := GetTaskRow(rows, owner, listId, oldTitle);
      if k.None? {
        return 0;
      }
      if GetTaskRow(rows, owner, listId, newTitle).Some? {
        return 0;
      }
      var e := rows[k.value].(title := newTitle);
      if Collides(rows, e, k.value) {
        return 0;
      }
      WriteKeepsInvariant(rows, nextId, k.value, e);
      rows := rows[k.value := e];
      return 1;
    }

    /** `update_task_by_index`: retitle the task numbered `index`, under the same conditions as `update_task`. */
    method UpdateTaskByIndex(owner: int, listName: string, index: int, newTitle: string) returns (n: nat, oldTitle: Option<string>)
      requires Valid()
      modifies this
      ensures Valid() && nextId == old(nextId)
      ensures n <= 1 && (n == 0 ==> rows == old(rows) && oldTitle.None?)
      ensures var t := IndexTarget(old(rows), owner, listName, index);
              n == 1 <==>
                t.Some? &&
                GetTaskRow(old(rows), owner, old(rows)[GetListId(old(rows), owner, listName).value].id, newTitle).None? &&
                !Collides(old(rows), old(rows)[t.value].(title := newTitle), t.value)
      ensures var t := IndexTarget(old(rows), owner, listName, index);
              n == 1 ==>
                oldTitle == Some(old(rows)[t.value].title) &&
                rows == old(rows)[t.value := old(rows)[t.value].(title := newTitle)]
    {
      var t := IndexTarget(rows, owner, listName, index);
      if t.None? {
        return 0, None;
      }
      var listId := rows[GetListId(rows, owner, listName).value].id;
      if GetTaskRow(rows, owner, listId, newTitle).Some? {
        return 0, None;
      }
      var e := rows[t.value].(title := newTitle);
      if Collides(rows, e, t.value) {
        return 0, None;
      }
      WriteKeepsInvariant(rows, nextId, t.value, e);
      oldTitle := Some(rows[t.value].title);
      rows := rows[t.value := e];
      n := 1;
    }

    /** Marks the task at `k` done (the update `mark_task_done` and its fuzzy form issue). */
    method MarkDoneAt(k: nat)
      requires Valid() && k < |rows|
      modifies this
      ensures Valid() && nextId == old(nextId)
      ensures rows == SetMeta(old(rows), k, MarkedDone(old(rows)[k].meta))
    {
      MetaChangeKeepsInvariant(rows, SetMeta(rows, k, MarkedDone(rows[k].meta)), nextId);
      rows := SetMeta(rows, k, MarkedDone(rows[k].meta));
    }

    /** `mark_task_done`: the resolver picks among the list's active tasks by the title given. */
    method MarkTaskDone(owner: int, listName: string, taskTitle: string) returns (n: nat)
      requires Valid()
      modifies this
      ensures Valid() && nextId == old(nextId)
      ensures var t := MarkDoneTarget(old(rows), owner, listName, taskTitle);
              (t.None? ==> n == 0 && rows == old(rows)) &&
              (t.Some? ==> n == 1 && rows == SetMeta(old(rows), t.value, MarkedDone(old(rows)[t.value].meta)))
    {
      var l := GetListId(rows, owner, listName);
      if l.None? {
        return 0;
      }
      var t := PickByTitle(rows, ActiveTasks(rows, owner, rows[l.value].id), taskTitle);
      if t.None? {
        return 0;
      }
      MarkDoneAt(t.value);
      return 1;
    }

    /** `mark_task_done_fuzzy`: as `mark_task_done`, through the fuzzy scorer only. */
    method MarkTaskDoneFuzzy(owner: int, listName: string, pattern: string) returns (n: nat, title: Option<string>)
      requires Valid()
      modifies this
      ensures Valid() && nextId == old(nextId)
      ensures var t := MarkDoneFuzzyTarget(old(rows), owner, listName, pattern);
              (t.None? ==> n == 0 && title.None? && rows == old(rows)) &&
              (t.Some? ==> n == 1 && title == Some(old(rows)[t.value].title) &&
                           rows == SetMeta(old(rows), t.value, MarkedDone(old(rows)[t.value].meta)))
    {
      if pattern == [] || CleanPattern(pattern) == [] {
        return 0, None;
      }
      var l := GetListId(rows, owner, listName);
      if l.None? {
        return 0, None;
      }
      var t := PickByPattern(rows, ActiveTasks(rows, owner, rows[l.value].id), pattern);
      if t.None? {
        return 0, None;
      }
      title := Some(rows[t.value].title);
      MarkDoneAt(t.value);
      n := 1;
    }

    /** `delete_list`: mark the list deleted and archive every task of it, remembering the list's name. */
    method DeleteList(owner: int, listName: string) returns (n: nat)
      requires Valid()
      modifies this
      ensures Valid() && nextId == old(nextId)
      ensures var l := ListToDelete(old(rows), owner, listName);
              (l.None? ==> n == 0 && rows == old(rows)) &&
              (l.Some? ==> n == 1 && rows == ListDeleted(old(rows), l.value, owner, listName))
    {
      var l := FindFirst(rows, (e: Entity) => ExactList(owner, listName, e));
      if l.None? {
        return 0;
      }
      DeleteListAt(l.value, owner, listName);
      return 1;
    }

    /** The updates of `delete_list` once the list at `k` is found: delete it, then archive each of its tasks. */
    method DeleteListAt(k: nat, owner: int, listName: string)
      requires Valid() && k < |rows| && rows[k].kind == List
      modifies this
      ensures Valid() && nextId == old(nextId)
      ensures rows == ListDeleted(old(rows), k, owner, listName)
    {
      var listId := rows[k].id;
      ghost var target := ListDeleted(rows, k, owner, listName);
      MetaChangeKeepsInvariant(rows, target, nextId);
      rows := SetMeta(rows, k, Deleted(rows[k].meta));
      ghost var listed := rows;
      for i := 0 to |rows|
        invariant |rows| == |listed| == |target| && nextId == old(nextId)
        invariant forall j :: 0 <= j < |rows| ==> rows[j] == if j < i then target[j] else listed[j]
      {
        if TaskOf(owner, listId, rows[i]) {
          rows := SetMeta(rows, i, Archived(rows[i].meta, listName));
        }
      }
      assert rows == target;
    }

    /** Marks the task at `k` deleted (the update every task deletion issues). */
    method DeleteAt(k: nat)
      requires Valid() && k < |rows|
      modifies this
      ensures Valid() && nextId == old(nextId)
      ensures rows == SetMeta(old(rows), k, Deleted(old(rows)[k].meta))
    {
      MetaChangeKeepsInvariant(rows, SetMeta(rows, k, Deleted(rows[k].meta)), nextId);
      rows := SetMeta(rows, k, Deleted(rows[k].meta));
    }

    /** `delete_task`: delete the live task with that title unless it is done. */
    method DeleteTask(owner: int, listName: string, taskTitle: string) returns (n: nat)
      requires Valid()
      modifies this
      ensures Valid() && nextId == old(nextId)
      ensures var t := DeleteTaskTarget(old(rows), owner, listName, taskTitle);
              (t.None? ==> n == 0 && rows == old(rows)) &&
              (t.Some? ==> n == 1 && rows == SetMeta(old(rows), t.value, Deleted(old(rows)[t.value].meta)))
    {
      var l := GetListId(rows, owner, listName);
      if l.None? {
        return 0;
      }
      var k := GetTaskRow(rows, owner, rows[l.value].id, taskTitle);
      if k.None? {
        return 0;
      }
      if Done(rows[k.value]) {
        return 0;
      }
      DeleteAt(k.value);
      return 1;
    }

    /** `delete_task_fuzzy`: delete the active task nearest the pattern in edit distance, if near enough. */
    method DeleteTaskFuzzy(owner: int, listName: string, pattern: string) returns (n: nat, title: Option<string>)
      requires Valid()
      modifies this
      ensures Valid() && nextId == old(nextId)
      ensures var t := DeleteFuzzyTarget(old(rows), owner, listName, pattern);
              (t.None? ==> n == 0 && title.None? && rows == old(rows)) &&
              (t.Some? ==> n == 1 && title == Some(old(rows)[t.value].title) &&
                           rows == SetMeta(old(rows), t.value, Deleted(old(rows)[t.value].meta)))
    {
      if pattern == [] {
        return 0, None;
      }
      var cleaned := CleanPattern(pattern);
      if cleaned == [] {
        return 0, None;
      }
      var l := GetListId(rows, owner, listName);
      if l.None? {
        return 0, None;
      }
      var t := ByDistance(rows, ActiveTasks(rows, owner, rows[l.value].id), cleaned);
      if t.None? {
        return 0, None;
      }
      title := Some(rows[t.value].title);
      DeleteAt(t.value);
      n := 1;
    }

    /** `delete_task_by_index`: delete the task numbered `index` in the list. */
    method DeleteTaskByIndex(owner: int, listName: string, index: int) returns (n: nat, title: Option<string>)
      requires Valid()
      modifies this
      ensures Valid() && nextId == old(nextId)
      ensures var t := IndexTarget(old(rows), owner, listName, index);
              (t.None? ==> n == 0 && title.None? && rows == old(rows)) &&
              (t.Some? ==> n == 1 && title == Some(old(rows)[t.value].title) &&
                           rows == SetMeta(old(rows), t.value, Deleted(old(rows)[t.value].meta)))
    {
      var t := IndexTarget(rows, owner, listName, index);
      if t.None? {
        return 0, None;
      }
      title := Some(rows[t.value].title);
      DeleteAt(t.value);
      n := 1;
    }

    /** Restores the task at `k` (the update both restore operations issue). */
    method RestoreAt(k: nat)
      requires Valid() && k < |rows| && Restorable(rows[k])
      modifies this
      ensures Valid() && nextId == old(nextId)
      ensures rows == SetMeta(old(rows), k, Restored(old(rows)[k].meta))
    {
      RestoreAlwaysChanges(rows[k]);
      MetaChangeKeepsInvariant(rows, SetMeta(rows, k, Restored(rows[k].meta)), nextId);
      rows := SetMeta(rows, k, Restored(rows[k].meta));
    }

    /**
     * `restore_task`: without the live list, only a suggestion to create a new
     * one (when an archived task of that title came from it); otherwise the
     * resolver picks among the list's restorable tasks.
     */
    method RestoreTask(owner: int, listName: string, taskTitle: string)
      returns (n: nat, title: Option<string>, suggestion: Option<string>)
      requires Valid()
      modifies this
      ensures Valid() && nextId == old(nextId)
      ensures GetListId(old(rows), owner, listName).None? ==>
                n == 0 && title.None? && rows == old(rows) &&
                suggestion == SuggestNewList(old(rows), owner, listName, taskTitle)
      ensures GetListId(old(rows), owner, listName).Some? ==> suggestion.None?
      ensures var t := RestoreTarget(old(rows), owner, listName, taskTitle);
              (t.None? ==> n == 0 && title.None? && rows == old(rows)) &&
              (t.Some? ==> n == 1 && title == Some(old(rows)[t.value].title) &&
                           rows == SetMeta(old(rows), t.value, Restored(old(rows)[t.value].meta)))
    {
      var l := GetListId(rows, owner, listName);
      if l.None? {
        return 0, None, SuggestNewList(rows, owner, listName, taskTitle);
      }
      var t := PickByTitle(rows, RestorableTasks(rows, owner, rows[l.value].id), taskTitle);
      if t.None? {
        return 0, None, None;
      }
      title := Some(rows[t.value].title);
      RestoreAt(t.value);
      n, suggestion := 1, None;
    }

    /** `restore_task_fuzzy`: as `restore_task`, through the fuzzy scorer only; the suggestion names the pattern. */
    method RestoreTaskFuzzy(owner: int, listName: string, pattern: string)
      returns (n: nat, title: Option<string>, suggestion: Option<string>)
      requires Valid()
      modifies this
      ensures Valid() && nextId == old(nextId)
      ensures pattern != [] && CleanPattern(pattern) != [] && GetListId(old(rows), owner, listName).None? ==>
                suggestion == SuggestNewList(old(rows), owner, listName, pattern)
      ensures pattern == [] || CleanPattern(pattern) == [] || GetListId(old(rows), owner, listName).Some? ==>
                suggestion.None?
      ensures var t := RestoreFuzzyTarget(old(rows), owner, listName, pattern);
              (t.None? ==> n == 0 && title.None? && rows == old(rows)) &&
              (t.Some? ==> n == 1 && title == Some(old(rows)[t.value].title) &&
                           rows == SetMeta(old(rows), t.value, Restored(old(rows)[t.value].meta)))
    {
      if pattern == [] || CleanPattern(pattern) == [] {
        return 0, None, None;
      }
      var l := GetListId(rows, owner, listName);
      if l.None? {
        return 0, None, SuggestNewList(rows, owner, listName, pattern);
      }
      var t := PickByPattern(rows, RestorableTasks(rows, owner, rows[l.value].id), pattern);
      if t.None? {
        return 0, None, None;
      }
      title := Some(rows[t.value].title);
      RestoreAt(t.value);
      n, suggestion := 1, None;
    }

    /**
     * `move_entity`: move the live task with that title from one live list to
     * another, unless the target list already holds that exact title.
     */
    method MoveEntity(owner: int, entityType: string, title: string, fromList: string, toList: string) returns (n: nat)
      requires Valid()
      modifies this
      ensures Valid() && nextId == old(nextId)
      ensures n <= 1 && (n == 0 ==> rows == old(rows))
      ensures var from := GetListId(old(rows), owner, fromList);
              var to := GetListId(old(rows), owner, toList);
              n == 1 <==>
                from.Some? && to.Some? &&
                var k := GetTaskRow(old(rows), owner, old(rows)[from.value].id, title);
                k.Some? && !Collides(old(rows), old(rows)[k.value].(parent := Some(old(rows)[to.value].id)), k.value)
      ensures n == 1 ==>
                var from := GetListId(old(rows), owner, fromList).value;
                var to := GetListId(old(rows), owner, toList).value;
                var k := GetTaskRow(old(rows), owner, old(rows)[from].id, title).value;
                rows == old(rows)[k := old(rows)[k].(parent := Some(old(rows)[to].id))]
    {
      var from := GetListId(rows, owner, fromList);
      if from.None? {
        return 0;
      }
      var to := GetListId(rows, owner, toList);
      if to.None? {
        return 0;
      }
      var k := GetTaskRow(rows, owner, rows[from.value].id, title);
      if k.None? {
        return 0;
      }
      var e := rows[k.value].(parent := Some(rows[to.value].id));
      if Collides(rows, e, k.value) {
        return 0;
      }
      WriteKeepsInvariant(rows, nextId, k.value, e);
      rows := rows[k.value := e];
      return 1;
    }
  }
}
