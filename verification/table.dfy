/**
 * The `entities` table of the store and the read-only queries over it.
 *
 * A table is the sequence of its rows in insertion order; `id`s grow along it,
 * so "ORDER BY created_at" and an unordered scan both read the rows in
 * sequence order (the id breaks ties between rows created in the same second).
 * A row is addressed by its position; ids are unique, so a position names the
 * same row as its id.
 *
 * The JSON `meta` column is the record of the flags the store writes:
 * `deleted`, `status`, `archived` and `archived_from`; an absent key is
 * `false`/`None`.
 */
module Table {
  import opened Wrappers
  import opened Seqs
  import opened Text
  import opened Tokens
  import opened Similarity
  import opened Resolver

  datatype Kind = List | Task

  datatype Meta = Meta(deleted: bool, status: Option<string>, archived: bool, archivedFrom: Option<string>)

  const NoMeta := Meta(false, None, false, None)

  datatype Entity = Entity(id: nat, owner: int, kind: Kind, title: string, parent: Option<nat>, meta: Meta)

  /** `meta IS NULL OR json_extract(meta, '$.deleted') IS NOT TRUE`. */
  predicate Live(e: Entity) {
    !e.meta.deleted
  }

  /** `json_extract(meta, '$.status') = 'done'`. */
  predicate Done(e: Entity) {
    e.meta.status == Some("done")
  }

  /** The filter of `_list_active_tasks`: live, and `COALESCE(status, 'open') != 'done'`. */
  predicate Active(e: Entity) {
    Live(e) && !Done(e)
  }

  /** The filter of `_list_restorable_tasks`: deleted, done or archived. */
  predicate Restorable(e: Entity) {
    e.meta.deleted || Done(e) || e.meta.archived
  }

  // ----- the UNIQUE(user_id, type, title, parent_id) constraint -----

  /** Two rows collide on the unique key; a NULL parent never collides (SQL NULLs are distinct). */
  predicate SameKey(a: Entity, b: Entity) {
    a.parent.Some? && a.parent == b.parent && a.owner == b.owner && a.kind == b.kind && a.title == b.title
  }

  ghost predicate Unique(rows: seq<Entity>) {
    forall i, j :: 0 <= i < j < |rows| ==> !SameKey(rows[i], rows[j])
  }

  /** Writing `e` at position `skip` (or appending it, for `skip == |rows|`) would violate the constraint. */
  predicate Collides(rows: seq<Entity>, e: Entity, skip: nat) {
    exists j | 0 <= j < |rows| :: j != skip && SameKey(e, rows[j])
  }

  /** A write that does not collide keeps the constraint. */
  lemma {:induction false} WriteKeepsUnique(rows: seq<Entity>, k: nat, e: Entity)
    requires Unique(rows) && k < |rows| && !Collides(rows, e, k)
    ensures Unique(rows[k := e])
  {
    var rows' := rows[k := e];
    forall i, j | 0 <= i < j < |rows'| ensures !SameKey(rows'[i], rows'[j]) {
      if i == k {
        assert !SameKey(e, rows[j]);
      } else if j == k {
        assert !SameKey(e, rows[i]);
      }
    }
  }

  /** An insert that does not collide keeps the constraint. */
  lemma {:induction false} AppendKeepsUnique(rows: seq<Entity>, e: Entity)
    requires Unique(rows) && !Collides(rows, e, |rows|)
    ensures Unique(rows + [e])
  {
    var rows' := rows + [e];
    forall i, j | 0 <= i < j < |rows'| ensures !SameKey(rows'[i], rows'[j]) {
      if j == |rows| {
        assert !SameKey(e, rows[i]);
      } else {
        assert rows'[i] == rows[i] && rows'[j] == rows[j];
      }
    }
  }

  // ----- single-row lookups (`LIMIT 1`) -----

  /** The filter of `_get_list_id`: a live list of the user, title equal under SQLite `LOWER()`. */
  predicate LiveListNamed(owner: int, name: string, e: Entity) {
    e.owner == owner && e.kind == List && SqlLower(e.title) == SqlLower(name) && Live(e)
  }

  /** The filter of `find_list`: as `_get_list_id` but deleted lists count too. */
  predicate ListNamed(owner: int, name: string, e: Entity) {
    e.owner == owner && e.kind == List && SqlLower(e.title) == SqlLower(name)
  }

  /** `_get_list_id`: the first live list with that name. */
  function GetListId(rows: seq<Entity>, owner: int, name: string): (r: Option<nat>)
    ensures r.Some? ==> r.value < |rows| && LiveListNamed(owner, name, rows[r.value])
    ensures r.Some? ==> forall j :: 0 <= j < r.value ==> !LiveListNamed(owner, name, rows[j])
    ensures r.None? ==> forall j :: 0 <= j < |rows| ==> !LiveListNamed(owner, name, rows[j])
  {
    FirstWhere(rows, (e: Entity) => LiveListNamed(owner, name, e))
  }

  /** `find_list`: the first list with that name, deleted or not. */
  function FindList(rows: seq<Entity>, owner: int, name: string): (r: Option<nat>)
    ensures r.Some? ==> r.value < |rows| && ListNamed(owner, name, rows[r.value])
    ensures r.Some? ==> forall j :: 0 <= j < r.value ==> !ListNamed(owner, name, rows[j])
    ensures r.None? ==> forall j :: 0 <= j < |rows| ==> !ListNamed(owner, name, rows[j])
  {
    FirstWhere(rows, (e: Entity) => ListNamed(owner, name, e))
  }

  /** `find_list` finds a list whenever `_get_list_id` does, at the same row or an earlier, deleted one. */
  lemma FindListCoversGetListId(rows: seq<Entity>, owner: int, name: string)
    ensures GetListId(rows, owner, name).Some? ==>
              FindList(rows, owner, name).Some? && FindList(rows, owner, name).value <= GetListId(rows, owner, name).value
    ensures FindList(rows, owner, name).Some? && Live(rows[FindList(rows, owner, name).value]) ==>
              GetListId(rows, owner, name) == FindList(rows, owner, name)
  {
    var g := GetListId(rows, owner, name);
    var f := FindList(rows, owner, name);
    if g.Some? {
      assert ListNamed(owner, name, rows[g.value]);
    }
    if f.Some? && Live(rows[f.value]) {
      assert LiveListNamed(owner, name, rows[f.value]);
    }
  }

  /** A task of the user inside the list with id `listId`. */
  predicate TaskOf(owner: int, listId: nat, e: Entity) {
    e.owner == owner && e.kind == Task && e.parent == Some(listId)
  }

  /** The filter of `_get_task_row`: a live task of the list whose title equals `title` under SQLite `LOWER()`. */
  predicate LiveTaskNamed(owner: int, listId: nat, title: string, e: Entity) {
    TaskOf(owner, listId, e) && SqlLower(e.title) == SqlLower(title) && Live(e)
  }

  /** `_get_task_row`: the first live task of the list with that title. */
  function GetTaskRow(rows: seq<Entity>, owner: int, listId: nat, title: string): (r: Option<nat>)
    ensures r.Some? ==> r.value < |rows| && LiveTaskNamed(owner, listId, title, rows[r.value])
    ensures r.None? ==> forall j :: 0 <= j < |rows| ==> !LiveTaskNamed(owner, listId, title, rows[j])
  {
    FirstWhere(rows, (e: Entity) => LiveTaskNamed(owner, listId, title, e))
  }

  // ----- multi-row queries -----

  /** `_list_active_tasks`: positions of the list's active tasks, in creation order. */
  function ActiveTasks(rows: seq<Entity>, owner: int, listId: nat): (r: seq<nat>)
    ensures forall k :: 0 <= k < |r| ==> r[k] < |rows| && TaskOf(owner, listId, rows[r[k]]) && Active(rows[r[k]])
    ensures forall k, l :: 0 <= k < l < |r| ==> r[k] < r[l]
    ensures forall i :: 0 <= i < |rows| && TaskOf(owner, listId, rows[i]) && Active(rows[i]) ==> i in r
  {
    Positions(rows, (e: Entity) => TaskOf(owner, listId, e) && Active(e))
  }

  /** `_list_restorable_tasks`: positions of the list's deleted, done or archived tasks. */
  function RestorableTasks(rows: seq<Entity>, owner: int, listId: nat): (r: seq<nat>)
    ensures forall k :: 0 <= k < |r| ==> r[k] < |rows| && TaskOf(owner, listId, rows[r[k]]) && Restorable(rows[r[k]])
    ensures forall k, l :: 0 <= k < l < |r| ==> r[k] < r[l]
    ensures forall i :: 0 <= i < |rows| && TaskOf(owner, listId, rows[i]) && Restorable(rows[i]) ==> i in r
  {
    Positions(rows, (e: Entity) => TaskOf(owner, listId, e) && Restorable(e))
  }

  /** The `(id, title, meta)` candidate tuples the resolver is handed, without the meta. */
  function CandidatesAt(rows: seq<Entity>, pos: seq<nat>): (r: seq<Candidate>)
    requires forall k :: 0 <= k < |pos| ==> pos[k] < |rows|
    ensures |r| == |pos|
    ensures forall k :: 0 <= k < |pos| ==> r[k] == Candidate(rows[pos[k]].id, rows[pos[k]].title)
  {
    seq(|pos|, k requires 0 <= k < |pos| => Candidate(rows[pos[k]].id, rows[pos[k]].title))
  }

  /** `get_list_tasks`: the active tasks of the live list, numbered from 1 in creation order. */
  function ListTasks(rows: seq<Entity>, owner: int, listName: string): (r: seq<(nat, string)>)
    ensures GetListId(rows, owner, listName).None? ==> r == []
    ensures GetListId(rows, owner, listName).Some? ==>
              var act := ActiveTasks(rows, owner, rows[GetListId(rows, owner, listName).value].id);
              |r| == |act| && forall k :: 0 <= k < |r| ==> r[k] == (k + 1, rows[act[k]].title)
  {
    match GetListId(rows, owner, listName)
    case None => []
    case Some(l) => Numbered(rows, ActiveTasks(rows, owner, rows[l].id))
  }

  /** The titles at `pos`, each paired with its number from 1. */
  function Numbered(rows: seq<Entity>, pos: seq<nat>): (r: seq<(nat, string)>)
    requires forall k :: 0 <= k < |pos| ==> pos[k] < |rows|
    ensures |r| == |pos| && forall k :: 0 <= k < |r| ==> r[k] == (k + 1, rows[pos[k]].title)
  {
    seq(|pos|, k requires 0 <= k < |pos| => (k + 1, rows[pos[k]].title))
  }

  /** `get_all_lists`: titles of the user's live lists, sorted by code point. */
  function AllLists(rows: seq<Entity>, owner: int): (r: seq<string>)
  {
    var pos := Positions(rows, (e: Entity) => e.owner == owner && e.kind == List && Live(e));
    SortBy(seq(|pos|, k requires 0 <= k < |pos| => rows[pos[k]].title), (a: string, b: string) => StrLe(a, b))
  }

  /** `get_all_lists` is sorted and holds exactly the titles of the live lists, each as often as it occurs. */
  lemma AllListsSortedPermutation(rows: seq<Entity>, owner: int)
    ensures SortedBy(AllLists(rows, owner), (a: string, b: string) => StrLe(a, b))
    ensures var pos := Positions(rows, (e: Entity) => e.owner == owner && e.kind == List && Live(e));
            multiset(AllLists(rows, owner)) == multiset(seq(|pos|, k requires 0 <= k < |pos| => rows[pos[k]].title))
  {
    var pos := Positions(rows, (e: Entity) => e.owner == owner && e.kind == List && Live(e));
    StrLeTotalPreorder();
    SortBySorted(seq(|pos|, k requires 0 <= k < |pos| => rows[pos[k]].title), (a: string, b: string) => StrLe(a, b));
  }

  /** The row `l.id = e.parent_id` of a join, if any (ids are unique, so the first is the only one). */
  function ParentRow(rows: seq<Entity>, e: Entity): (r: Option<nat>)
    ensures r.Some? ==> r.value < |rows| && e.parent == Some(rows[r.value].id)
    ensures r.None? ==> forall j :: 0 <= j < |rows| ==> e.parent != Some(rows[j].id)
  {
    FirstWhere(rows, (l: Entity) => e.parent == Some(l.id))
  }

  /** The row filter shared by `search_tasks` and `get_all_tasks` with their status test as written. */
  predicate OpenAsWritten(e: Entity) {
    Live(e) && e.meta.status.Some? && e.meta.status.value != "done"
  }

  /** The intended status test: `COALESCE(status, 'open') != 'done'`, as in `_list_active_tasks`. */
  predicate OpenIntended(e: Entity) {
    Active(e)
  }

  /** `LOWER(e.title) LIKE LOWER('%' || cleaned || '%')`; the cleaned pattern holds no `%` or `_`. */
  predicate LikeMatch(title: string, cleaned: string) {
    Contains(SqlLower(title), SqlLower(cleaned))
  }

  /** Rows a task listing joins to its parent: user's tasks with a parent row, passing `open`. */
  predicate Listed(rows: seq<Entity>, owner: int, open: Entity -> bool, e: Entity) {
    e.owner == owner && e.kind == Task && open(e) && ParentRow(rows, e).Some?
  }

  function ListedFilter(rows: seq<Entity>, owner: int, open: Entity -> bool): Entity -> bool {
    (e: Entity) => Listed(rows, owner, open, e)
  }

  /** The rows `search_tasks` selects: listed rows whose title contains the cleaned pattern. */
  function SearchFilter(rows: seq<Entity>, owner: int, open: Entity -> bool, cleaned: string): Entity -> bool {
    (e: Entity) => Listed(rows, owner, open, e) && LikeMatch(e.title, cleaned)
  }

  /** `pos` holds, in increasing (creation) order, exactly the positions of the rows satisfying `sel`. */
  ghost predicate AllInRowOrder(rows: seq<Entity>, pos: seq<nat>, sel: Entity -> bool) {
    (forall k, l :: 0 <= k < l < |pos| ==> pos[k] < pos[l]) &&
    (forall k :: 0 <= k < |pos| ==> pos[k] < |rows| && sel(rows[pos[k]])) &&
    (forall i :: 0 <= i < |rows| && sel(rows[i]) ==> i in pos)
  }

  /** `(list title, task title)` for the listed rows at `pos`, in the order of `pos`. */
  function TitlePairs(rows: seq<Entity>, pos: seq<nat>): (r: seq<(string, string)>)
    requires forall k :: 0 <= k < |pos| ==> pos[k] < |rows| && ParentRow(rows, rows[pos[k]]).Some?
    ensures |r| == |pos|
    ensures forall k :: 0 <= k < |pos| ==> r[k] == (rows[ParentRow(rows, rows[pos[k]]).value].title, rows[pos[k]].title)
  {
    seq(|pos|, k requires 0 <= k < |pos| => (rows[ParentRow(rows, rows[pos[k]]).value].title, rows[pos[k]].title))
  }

  /**
   * `search_tasks` with the given status test: a pattern that is empty once
   * cleaned finds nothing; otherwise the answer is the `(list title, task
   * title)` pair of every task of the user that has a list row, passes the
   * status test and whose title contains the cleaned pattern, in creation
   * order, and of no other row.
   */
  function SearchWith(rows: seq<Entity>, owner: int, pattern: string, open: Entity -> bool): (r: seq<(string, string)>)
    ensures CleanPattern(pattern) == [] ==> r == []
    ensures CleanPattern(pattern) != [] ==>
              exists pos :: AllInRowOrder(rows, pos, SearchFilter(rows, owner, open, CleanPattern(pattern))) &&
                            (forall k :: 0 <= k < |pos| ==> pos[k] < |rows| && ParentRow(rows, rows[pos[k]]).Some?) &&
                            r == TitlePairs(rows, pos)
  {
    var cleaned := CleanPattern(pattern);
    if cleaned == [] then []
    else
      var pos := Positions(rows, SearchFilter(rows, owner, open, cleaned));
      SearchPositions(rows, owner, open, cleaned);
      TitlePairs(rows, pos)
  }

  lemma SearchPositions(rows: seq<Entity>, owner: int, open: Entity -> bool, cleaned: string)
    ensures var pos := Positions(rows, SearchFilter(rows, owner, open, cleaned));
            AllInRowOrder(rows, pos, SearchFilter(rows, owner, open, cleaned)) &&
            forall k :: 0 <= k < |pos| ==> pos[k] < |rows| && ParentRow(rows, rows[pos[k]]).Some?
  {
    var sel := SearchFilter(rows, owner, open, cleaned);
    var pos := Positions(rows, sel);
    forall k | 0 <= k < |pos| ensures ParentRow(rows, rows[pos[k]]).Some? {
      assert sel(rows[pos[k]]);
    }
  }

  /** `search_tasks` as written. */
  function SearchTasksAsWritten(rows: seq<Entity>, owner: int, pattern: string): seq<(string, string)> {
    SearchWith(rows, owner, pattern, OpenAsWritten)
  }

  /** `search_tasks` with the intended status test. */
  function SearchTasks(rows: seq<Entity>, owner: int, pattern: string): seq<(string, string)> {
    SearchWith(rows, owner, pattern, OpenIntended)
  }

  /** Order of `ORDER BY l.title`: compare the list titles only. */
  predicate ByListTitle(a: (string, string), b: (string, string)) {
    StrLe(a.0, b.0)
  }

  /** `get_all_tasks` with the given status test: sorted by list title, then creation order. */
  function AllTasksWith(rows: seq<Entity>, owner: int, open: Entity -> bool): seq<(string, string)> {
    var pos := Positions(rows, ListedFilter(rows, owner, open));
    SortBy(TitlePairs(rows, pos), ByListTitle)
  }

  function AllTasksAsWritten(rows: seq<Entity>, owner: int): seq<(string, string)> {
    AllTasksWith(rows, owner, OpenAsWritten)
  }

  function AllTasks(rows: seq<Entity>, owner: int): seq<(string, string)> {
    AllTasksWith(rows, owner, OpenIntended)
  }

  /** The pairs listed under the list title `title`. */
  function UnderList(title: string): ((string, string)) -> bool {
    (p: (string, string)) => p.0 == title
  }

  /**
   * `get_all_tasks` is ordered by list title, lists every open task of the
   * user exactly once, and lists the tasks under one list title in creation
   * order (`ORDER BY l.title, e.created_at`).
   */
  lemma AllTasksSortedPermutation(rows: seq<Entity>, owner: int)
    ensures SortedBy(AllTasks(rows, owner), ByListTitle)
    ensures var pos := Positions(rows, ListedFilter(rows, owner, OpenIntended));
            multiset(AllTasks(rows, owner)) == multiset(TitlePairs(rows, pos))
    ensures var pos := Positions(rows, ListedFilter(rows, owner, OpenIntended));
            forall title :: Filter(AllTasks(rows, owner), UnderList(title)) == Filter(TitlePairs(rows, pos), UnderList(title))
  {
    var pos := Positions(rows, ListedFilter(rows, owner, OpenIntended));
    StrLeTotalPreorder();
    assert TotalPreorder(ByListTitle) by {
      forall a: (string, string), b: (string, string) ensures ByListTitle(a, b) || ByListTitle(b, a) {
        StrLeTotal(a.0, b.0);
      }
      forall a: (string, string), b: (string, string), c: (string, string) | ByListTitle(a, b) && ByListTitle(b, c)
        ensures ByListTitle(a, c)
      {
        StrLeTransitive(a.0, b.0, c.0);
      }
    }
    SortBySorted(TitlePairs(rows, pos), ByListTitle);
    forall title
      ensures Filter(AllTasks(rows, owner), UnderList(title)) == Filter(TitlePairs(rows, pos), UnderList(title))
    {
      StrLeTotal(title, title);
      SortByStable(TitlePairs(rows, pos), ByListTitle, UnderList(title));
    }
  }

  /** Every open task of the user whose list row exists is listed by `get_all_tasks` (intended filter). */
  lemma AllTasksListsOpenTasks(rows: seq<Entity>, owner: int, k: nat)
    requires k < |rows| && Listed(rows, owner, OpenIntended, rows[k])
    ensures (rows[ParentRow(rows, rows[k]).value].title, rows[k].title) in AllTasks(rows, owner)
  {
    var pos := Positions(rows, ListedFilter(rows, owner, OpenIntended));
    assert k in pos;
    var i :| 0 <= i < |pos| && pos[i] == k;
    var pairs := TitlePairs(rows, pos);
    assert pairs[i] in multiset(pairs);
    AllTasksSortedPermutation(rows, owner);
  }

  /** Every open task whose title contains the cleaned pattern is found by `search_tasks` (intended filter). */
  lemma SearchFindsOpenTasks(rows: seq<Entity>, owner: int, pattern: string, k: nat)
    requires k < |rows| && Listed(rows, owner, OpenIntended, rows[k])
    requires CleanPattern(pattern) != [] && LikeMatch(rows[k].title, CleanPattern(pattern))
    ensures (rows[ParentRow(rows, rows[k]).value].title, rows[k].title) in SearchTasks(rows, owner, pattern)
  {
    var cleaned := CleanPattern(pattern);
    var pos := Positions(rows, SearchFilter(rows, owner, OpenIntended, cleaned));
    assert k in pos;
    TitlePairsHas(rows, pos, k);
  }

  /** A listed position contributes its pair. */
  lemma TitlePairsHas(rows: seq<Entity>, pos: seq<nat>, k: nat)
    requires forall j :: 0 <= j < |pos| ==> pos[j] < |rows| && ParentRow(rows, rows[pos[j]]).Some?
    requires k in pos
    ensures k < |rows| && ParentRow(rows, rows[k]).Some?
    ensures (rows[ParentRow(rows, rows[k]).value].title, rows[k].title) in TitlePairs(rows, pos)
  {
    var i :| 0 <= i < |pos| && pos[i] == k;
    assert TitlePairs(rows, pos)[i] == (rows[ParentRow(rows, rows[k]).value].title, rows[k].title);
  }

  /** As written, a task without a status key is never listed, whatever else holds of it. */
  lemma AsWrittenSkipsStatusless(rows: seq<Entity>, owner: int, pattern: string, k: nat)
    requires k < |rows| && rows[k].meta.status.None?
    ensures k !in Positions(rows, ListedFilter(rows, owner, OpenAsWritten))
    ensures k !in Positions(rows, SearchFilter(rows, owner, OpenAsWritten, CleanPattern(pattern)))
  {
  }

  /** A user (7) with one list "Дом" holding one task "молоко" as `add_task` creates it, without a status. */
  const NewTaskExample := [Entity(1, 7, List, "Дом", None, NoMeta), Entity(2, 7, Task, "молоко", Some(1), NoMeta)]

  lemma NewTaskExampleLookups()
    ensures GetListId(NewTaskExample, 7, "Дом") == Some(0)
    ensures ParentRow(NewTaskExample, NewTaskExample[1]) == Some(0)
  {
    var rows := NewTaskExample;
    assert LiveListNamed(7, "Дом", rows[0]);
    assert rows[1].parent == Some(rows[0].id);
  }

  /** In the example, `get_list_tasks` shows the task as number 1. */
  lemma NewTaskExampleListed()
    ensures ListTasks(NewTaskExample, 7, "Дом") == [(1, "молоко")]
  {
    var rows := NewTaskExample;
    NewTaskExampleLookups();
    var p := (e: Entity) => TaskOf(7, 1, e) && Active(e);
    assert !p(rows[0]) && p(rows[1]);
    PositionsOfPair(rows[0], rows[1], p);
  }

  /**
   * In the example, `get_all_tasks` as written returns nothing, while with the
   * intended filter it returns the task.
   */
  lemma AllTasksAsWrittenHidesNewTask()
    ensures AllTasksAsWritten(NewTaskExample, 7) == []
    ensures AllTasks(NewTaskExample, 7) == [("Дом", "молоко")]
  {
    var rows := NewTaskExample;
    NewTaskExampleLookups();
    assert [rows[0], rows[1]] == rows;
    var asWritten := ListedFilter(rows, 7, OpenAsWritten);
    assert !Listed(rows, 7, OpenAsWritten, rows[0]) && !Listed(rows, 7, OpenAsWritten, rows[1]);
    assert !asWritten(rows[0]) && !asWritten(rows[1]);
    PositionsOfPair(rows[0], rows[1], asWritten);
    var intended := ListedFilter(rows, 7, OpenIntended);
    assert !Listed(rows, 7, OpenIntended, rows[0]) && Listed(rows, 7, OpenIntended, rows[1]);
    assert !intended(rows[0]) && intended(rows[1]);
    PositionsOfPair(rows[0], rows[1], intended);
    assert TitlePairs(rows, [1]) == [("Дом", "молоко")];
  }

  // ----- archive views -----

  /** SQLite's `LIMIT n`: a negative limit means no limit. */
  function Limit<T>(s: seq<T>, limit: int): (r: seq<T>)
    ensures limit < 0 || |s| <= limit ==> r == s
    ensures 0 <= limit < |s| ==> r == s[..limit]
  {
    if limit < 0 || |s| <= limit then s else s[..limit]
  }

  function Reverse<T>(s: seq<T>): (r: seq<T>)
    ensures |r| == |s| && forall k :: 0 <= k < |s| ==> r[k] == s[|s| - 1 - k]
  {
    seq(|s|, k requires 0 <= k < |s| => s[|s| - 1 - k])
  }

  const ArchiveLabel := "Архив"

  /** The join `l.id = e.parent_id AND l.type = 'list'` of `get_completed_tasks`: a list row with the parent's id, or none. */
  function ParentList(rows: seq<Entity>, e: Entity): (r: Option<nat>)
    ensures r.Some? ==> r.value < |rows| && e.parent == Some(rows[r.value].id) && rows[r.value].kind == List
    ensures r.None? ==> forall j :: 0 <= j < |rows| ==> !(e.parent == Some(rows[j].id) && rows[j].kind == List)
  {
    FirstWhere(rows, (l: Entity) => e.parent == Some(l.id) && l.kind == List)
  }

  /** `archived_flag` of `get_completed_tasks`: the task is archived, or its list row is missing or deleted. */
  predicate ShownArchived(rows: seq<Entity>, e: Entity) {
    var l := ParentList(rows, e);
    e.meta.archived || l.None? || rows[l.value].meta.deleted
  }

  /** "Архив • <source>", or "Архив" alone for an empty source. */
  function ArchiveOf(source: string): string {
    if source != [] then ArchiveLabel + " • " + source else ArchiveLabel
  }

  /**
   * The display title of one completed task. Shown as archived, it is
   * "Архив • <source>", the source being the recorded `archived_from` or
   * else the list's title, and "Архив" alone without a source; otherwise it
   * is its list's title, or "Архив" for an untitled list.
   */
  function CompletedLabel(rows: seq<Entity>, e: Entity): (r: string)
    ensures r != []
    ensures !ShownArchived(rows, e) ==>
              var title := rows[ParentList(rows, e).value].title;
              r == (if title != [] then title else ArchiveLabel)
    ensures ShownArchived(rows, e) && e.meta.archivedFrom.Some? ==> r == ArchiveOf(e.meta.archivedFrom.value)
    ensures ShownArchived(rows, e) && e.meta.archivedFrom.None? && ParentList(rows, e).Some? ==>
              r == ArchiveOf(rows[ParentList(rows, e).value].title)
    ensures ShownArchived(rows, e) && e.meta.archivedFrom.None? && ParentList(rows, e).None? ==> r == ArchiveLabel
  {
    var l := ParentList(rows, e);
    var listTitle: Option<string> := if l.Some? then Some(rows[l.value].title) else None;
    var archivedFlag := e.meta.archived || l.None? || rows[l.value].meta.deleted;
    if archivedFlag then
      var source := if e.meta.archivedFrom.Some? then e.meta.archivedFrom else listTitle;
      if source.Some? && source.value != [] then ArchiveLabel + " • " + source.value else ArchiveLabel
    else
      if listTitle.Some? && listTitle.value != [] then listTitle.value else ArchiveLabel
  }

  /**
   * `ps` lists, newest first, the rows satisfying `sel`, cut to the newest
   * `limit` of them: a selected row is left out only when the limit is
   * reached and every listed row is newer.
   */
  ghost predicate NewestFirst(rows: seq<Entity>, ps: seq<nat>, sel: Entity -> bool, limit: int) {
    (forall k, l :: 0 <= k < l < |ps| ==> ps[k] > ps[l]) &&
    (forall k :: 0 <= k < |ps| ==> ps[k] < |rows| && sel(rows[ps[k]])) &&
    (forall i :: 0 <= i < |rows| && sel(rows[i]) && i !in ps ==>
       0 <= limit == |ps| && forall k :: 0 <= k < |ps| ==> i < ps[k])
  }

  /** Reversing increasing positions and keeping the first `limit` keeps the newest ones, newest first. */
  lemma NewestOf(pos: seq<nat>, limit: int)
    requires forall k, l :: 0 <= k < l < |pos| ==> pos[k] < pos[l]
    ensures var ps := Limit(Reverse(pos), limit);
            (forall k, l :: 0 <= k < l < |ps| ==> ps[k] > ps[l]) &&
            (forall k :: 0 <= k < |ps| ==> ps[k] in pos) &&
            (forall x :: x in pos && x !in ps ==> 0 <= limit == |ps| && forall k :: 0 <= k < |ps| ==> x < ps[k])
  {
    var rev := Reverse(pos);
    var ps := Limit(rev, limit);
    assert forall k :: 0 <= k < |ps| ==> ps[k] == rev[k] == pos[|pos| - 1 - k];
    forall x | x in pos && x !in ps
      ensures 0 <= limit == |ps| && forall k :: 0 <= k < |ps| ==> x < ps[k]
    {
      var j :| 0 <= j < |pos| && pos[j] == x;
      var m := |pos| - 1 - j;
      assert rev[m] == x;
      assert m >= |ps|;
    }
  }

  /** `ORDER BY created_at DESC LIMIT limit`: the positions of the rows satisfying `sel`, newest first. */
  function Newest(rows: seq<Entity>, sel: Entity -> bool, limit: int): (ps: seq<nat>)
    ensures NewestFirst(rows, ps, sel, limit)
  {
    NewestPositions(rows, sel, limit);
    Limit(Reverse(Positions(rows, sel)), limit)
  }

  lemma NewestPositions(rows: seq<Entity>, sel: Entity -> bool, limit: int)
    ensures NewestFirst(rows, Limit(Reverse(Positions(rows, sel)), limit), sel, limit)
  {
    var pos := Positions(rows, sel);
    var ps := Limit(Reverse(pos), limit);
    NewestOf(pos, limit);
    forall k | 0 <= k < |ps| ensures ps[k] < |rows| && sel(rows[ps[k]]) {
      var j :| 0 <= j < |pos| && pos[j] == ps[k];
    }
    forall i | 0 <= i < |rows| && sel(rows[i]) && i !in ps
      ensures 0 <= limit == |ps| && forall k :: 0 <= k < |ps| ==> i < ps[k]
    {
      assert i in pos;
    }
  }

  /** Where no row is selected, nothing is listed. */
  lemma NewestOfNone(rows: seq<Entity>, sel: Entity -> bool, limit: int)
    requires forall i :: 0 <= i < |rows| ==> !sel(rows[i])
    ensures Newest(rows, sel, limit) == []
  {
    PositionsNone(rows, sel);
  }

  /** The rows `get_completed_tasks` selects: the user's live tasks with status "done". */
  predicate CompletedRow(owner: int, e: Entity) {
    e.owner == owner && e.kind == Task && Done(e) && Live(e)
  }

  function CompletedFilter(owner: int): Entity -> bool {
    (e: Entity) => CompletedRow(owner, e)
  }

  /**
   * `get_completed_tasks`: the display title and title of the user's live
   * done tasks, newest first, at most `limit` of them.
   */
  function CompletedTasks(rows: seq<Entity>, owner: int, limit: int): (r: seq<(string, string)>)
    ensures limit >= 0 ==> |r| <= limit
    ensures var ps := Newest(rows, CompletedFilter(owner), limit);
            |r| == |ps| && forall k :: 0 <= k < |ps| ==> r[k] == (CompletedLabel(rows, rows[ps[k]]), rows[ps[k]].title)
  {
    var newest := Newest(rows, CompletedFilter(owner), limit);
    seq(|newest|, k requires 0 <= k < |newest| => (CompletedLabel(rows, rows[newest[k]]), rows[newest[k]].title))
  }

  /** Without a limit, every live done task of the user is among the completed tasks, under its display title. */
  lemma CompletedTasksListsAll(rows: seq<Entity>, owner: int, limit: int, i: nat)
    requires limit < 0 && i < |rows| && CompletedRow(owner, rows[i])
    ensures (CompletedLabel(rows, rows[i]), rows[i].title) in CompletedTasks(rows, owner, limit)
  {
    var r := CompletedTasks(rows, owner, limit);
    var ps := Newest(rows, CompletedFilter(owner), limit);
    assert CompletedFilter(owner)(rows[i]);
    var k :| 0 <= k < |ps| && ps[k] == i;
    assert r[k] == (CompletedLabel(rows, rows[i]), rows[i].title);
  }

  /** `l.title` of the join `l.id = e.parent_id`: the title of the row with the parent's id, or NULL. */
  function ParentTitle(rows: seq<Entity>, e: Entity): (r: Option<string>)
    ensures r.None? <==> forall j :: 0 <= j < |rows| ==> e.parent != Some(rows[j].id)
    ensures r.Some? ==> exists j :: 0 <= j < |rows| && e.parent == Some(rows[j].id) && r.value == rows[j].title
  {
    var p := ParentRow(rows, e);
    if p.Some? then Some(rows[p.value].title) else None
  }

  /**
   * `get_deleted_tasks` over the rows satisfying `sel`: the parent's title
   * and title of each, newest first, at most `limit` of them.
   */
  function DeletedTasksWith(rows: seq<Entity>, sel: Entity -> bool, limit: int): (r: seq<(Option<string>, string)>)
    ensures limit >= 0 ==> |r| <= limit
    ensures var ps := Newest(rows, sel, limit);
            |r| == |ps| && forall k :: 0 <= k < |ps| ==> r[k] == (ParentTitle(rows, rows[ps[k]]), rows[ps[k]].title)
  {
    var newest := Newest(rows, sel, limit);
    seq(|newest|, k requires 0 <= k < |newest| => (ParentTitle(rows, rows[newest[k]]), rows[newest[k]].title))
  }

  /** Without a limit, every selected row is listed with its parent's title. */
  lemma DeletedTasksListsAll(rows: seq<Entity>, sel: Entity -> bool, limit: int, i: nat)
    requires limit < 0 && i < |rows| && sel(rows[i])
    ensures (ParentTitle(rows, rows[i]), rows[i].title) in DeletedTasksWith(rows, sel, limit)
  {
    var r := DeletedTasksWith(rows, sel, limit);
    var ps := Newest(rows, sel, limit);
    var k :| 0 <= k < |ps| && ps[k] == i;
    assert r[k] == (ParentTitle(rows, rows[i]), rows[i].title);
  }

  /** The rows `get_deleted_tasks` selects: the user's tasks flagged deleted. */
  function DeletedFilter(owner: int): Entity -> bool {
    (e: Entity) => e.owner == owner && e.kind == Task && e.meta.deleted
  }

  /** `get_deleted_tasks` as written. */
  function DeletedTasks(rows: seq<Entity>, owner: int, limit: int): seq<(Option<string>, string)> {
    DeletedTasksWith(rows, DeletedFilter(owner), limit)
  }

  /** A history filter that keeps what `delete_list` archives in view: deleted tasks, and archived tasks that are not done. */
  function RemovedFilter(owner: int): Entity -> bool {
    (e: Entity) => e.owner == owner && e.kind == Task && (e.meta.deleted || (e.meta.archived && !Done(e)))
  }

  /** `get_deleted_tasks` listing archived open tasks as well. */
  function RemovedTasks(rows: seq<Entity>, owner: int, limit: int): seq<(Option<string>, string)> {
    DeletedTasksWith(rows, RemovedFilter(owner), limit)
  }

  // ----- restore suggestion -----

  /** The filter of `_suggest_new_list_for_restore`: an archived task of the user with that title, from that list or from none. */
  predicate ArchivedFrom(owner: int, listName: string, taskTitle: string, e: Entity) {
    e.owner == owner && e.kind == Task && SqlLower(e.title) == SqlLower(taskTitle) && e.meta.archived &&
    (e.meta.archivedFrom.None? || SqlLower(e.meta.archivedFrom.value) == SqlLower(listName))
  }

  function SuggestionText(listName: string, taskTitle: string): string {
    "Список «" + listName + "» удалён. Создай новый список и скажи, куда вернуть задачу «" + taskTitle + "»."
  }

  /** `_suggest_new_list_for_restore`: the suggestion exactly when such an archived task exists. */
  function SuggestNewList(rows: seq<Entity>, owner: int, listName: string, taskTitle: string): (r: Option<string>)
    ensures r.Some? <==> exists j :: 0 <= j < |rows| && ArchivedFrom(owner, listName, taskTitle, rows[j])
    ensures r.Some? ==> r.value == SuggestionText(listName, taskTitle)
  {
    if exists j :: 0 <= j < |rows| && ArchivedFrom(owner, listName, taskTitle, rows[j])
    then Some(SuggestionText(listName, taskTitle))
    else None
  }

  // ----- near-duplicate scan -----

  /** The rows `_find_semantic_duplicate` scans: live, same user and kind, and the same parent when one is given. */
  predicate DuplicateCandidate(owner: int, kind: Kind, parent: Option<nat>, e: Entity) {
    e.owner == owner && e.kind == kind && Live(e) && (parent.Some? ==> e.parent == parent)
  }

  datatype Duplicate = Duplicate(pos: nat, id: nat, title: string, score: real)

  /**
   * The running best of a scan that keeps the row scoring above `threshold`
   * and strictly above the best so far (so the first of equal scores).
   */
  function BestAbove(rows: seq<Entity>, candidate: Entity -> bool, score: Entity -> real, threshold: real): (r: Option<Duplicate>)
    ensures r.Some? ==> r.value.pos < |rows| && candidate(rows[r.value.pos])
    ensures r.Some? ==> r.value.id == rows[r.value.pos].id && r.value.title == rows[r.value.pos].title
    ensures r.Some? ==> r.value.score == score(rows[r.value.pos]) && r.value.score > threshold
    decreases |rows|
  {
    if rows == [] then None
    else
      var last := |rows| - 1;
      var best := BestAbove(rows[..last], candidate, score, threshold);
      var e := rows[last];
      if candidate(e) && score(e) > threshold && (best.None? || score(e) > best.value.score)
      then Some(Duplicate(last, e.id, e.title, score(e)))
      else
        assert best.Some? ==> rows[..last][best.value.pos] == rows[best.value.pos];
        best
  }

  /**
   * `BestAbove` is the best-scoring candidate above the threshold, the first
   * of equal scores; with no candidate above the threshold there is none.
   */
  lemma {:induction false} BestAboveIsBest(rows: seq<Entity>, candidate: Entity -> bool, score: Entity -> real, threshold: real)
    ensures var r := BestAbove(rows, candidate, score, threshold);
            r.None? ==> forall j :: 0 <= j < |rows| && candidate(rows[j]) ==> score(rows[j]) <= threshold
    ensures var r := BestAbove(rows, candidate, score, threshold);
            r.Some? ==> forall j :: 0 <= j < |rows| && candidate(rows[j]) ==> score(rows[j]) <= r.value.score
    ensures var r := BestAbove(rows, candidate, score, threshold);
            r.Some? ==> forall j :: 0 <= j < r.value.pos && candidate(rows[j]) ==> score(rows[j]) < r.value.score
    decreases |rows|
  {
    if rows != [] {
      var last := |rows| - 1;
      var prefix := rows[..last];
      BestAboveIsBest(prefix, candidate, score, threshold);
      forall j | 0 <= j < last ensures prefix[j] == rows[j] {
      }
    }
  }

  /** The loop of `_find_semantic_duplicate`: one pass keeping the best row so far. */
  method ScanBest(rows: seq<Entity>, candidate: Entity -> bool, score: Entity -> real, threshold: real)
    returns (r: Option<Duplicate>)
    ensures r == BestAbove(rows, candidate, score, threshold)
  {
    r := None;
    for i := 0 to |rows|
      invariant r == BestAbove(rows[..i], candidate, score, threshold)
    {
      var e := rows[i];
      if candidate(e) {
        var s := score(e);
        if s > threshold && (r.None? || s > r.value.score) {
          r := Some(Duplicate(i, e.id, e.title, s));
        }
      }
      assert rows[..i + 1][..i] == rows[..i];
    }
    assert rows[..|rows|] == rows;
  }

  /** The similarity `_find_semantic_duplicate` scores a row by: against the stripped new title. */
  function DuplicateScore(cleaned: string): Entity -> real {
    (e: Entity) => SemanticSimilarity(cleaned, e.title)
  }

  /** The rows `_find_semantic_duplicate` selects, as a filter. */
  function DuplicateFilter(owner: int, kind: Kind, parent: Option<nat>): Entity -> bool {
    (e: Entity) => DuplicateCandidate(owner, kind, parent, e)
  }

  /** `_find_semantic_duplicate` over `rows`: blank titles have no duplicate, otherwise the best candidate above the threshold. */
  function SemanticDuplicate(rows: seq<Entity>, owner: int, title: string, kind: Kind, parent: Option<nat>, threshold: real): (r: Option<Duplicate>)
    ensures Strip(title) == [] ==> r.None?
    ensures r.Some? ==> r.value.pos < |rows| && DuplicateCandidate(owner, kind, parent, rows[r.value.pos])
    ensures r.Some? ==> r.value.id == rows[r.value.pos].id && r.value.title == rows[r.value.pos].title
  {
    var cleaned := Strip(title);
    if cleaned == [] then None
    else BestAbove(rows, DuplicateFilter(owner, kind, parent), DuplicateScore(cleaned), threshold)
  }

  /**
   * The duplicate found scores above the threshold; no candidate scores
   * above it, and none before it reaches its score.
   */
  lemma SemanticDuplicateIsBest(rows: seq<Entity>, owner: int, title: string, kind: Kind, parent: Option<nat>, threshold: real)
    ensures var r := SemanticDuplicate(rows, owner, title, kind, parent, threshold);
            r.Some? ==> r.value.score == SemanticSimilarity(Strip(title), rows[r.value.pos].title) && r.value.score > threshold
    ensures var r := SemanticDuplicate(rows, owner, title, kind, parent, threshold);
            Strip(title) != [] && r.None? ==>
              forall j :: 0 <= j < |rows| && DuplicateCandidate(owner, kind, parent, rows[j]) ==>
                SemanticSimilarity(Strip(title), rows[j].title) <= threshold
    ensures var r := SemanticDuplicate(rows, owner, title, kind, parent, threshold);
            r.Some? ==>
              forall j :: 0 <= j < |rows| && DuplicateCandidate(owner, kind, parent, rows[j]) ==>
                SemanticSimilarity(Strip(title), rows[j].title) <= r.value.score &&
                (j < r.value.pos ==> SemanticSimilarity(Strip(title), rows[j].title) < r.value.score)
  {
    var cleaned := Strip(title);
    if cleaned != [] {
      var candidate := DuplicateFilter(owner, kind, parent);
      var score := DuplicateScore(cleaned);
      var r := BestAbove(rows, candidate, score, threshold);
      assert SemanticDuplicate(rows, owner, title, kind, parent, threshold) == r;
      BestAboveIsBest(rows, candidate, score, threshold);
      if r.Some? {
        assert r.value.score == score(rows[r.value.pos]);
        forall j | 0 <= j < |rows| && DuplicateCandidate(owner, kind, parent, rows[j])
          ensures SemanticSimilarity(cleaned, rows[j].title) <= r.value.score &&
                  (j < r.value.pos ==> SemanticSimilarity(cleaned, rows[j].title) < r.value.score)
        {
          assert candidate(rows[j]) && score(rows[j]) == SemanticSimilarity(cleaned, rows[j].title);
        }
      } else {
        forall j | 0 <= j < |rows| && DuplicateCandidate(owner, kind, parent, rows[j])
          ensures SemanticSimilarity(cleaned, rows[j].title) <= threshold
        {
          assert candidate(rows[j]) && score(rows[j]) == SemanticSimilarity(cleaned, rows[j].title);
        }
      }
    }
  }
}
