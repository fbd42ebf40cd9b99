/**
 * `collapse_mark_done_actions` (main.py): consecutive `mark_done` actions on
 * the same list and entity type are merged into one batched action whose
 * task titles are cleaned and de-duplicated case-insensitively, and whose
 * `meta` flags are combined. Every other action passes through unchanged.
 * The phrase splitter `extract_tasks_from_phrase` is a parameter.
 */
module Collapse {
  import opened Wrappers
  import opened Seqs
  import opened Text
  import opened Actions

  // ----- task titles -----

  /** `re.sub(r"\s+", " ", raw.strip())`. */
  function CleanTask(raw: string): string {
    CollapseSpaces(Strip(raw))
  }

  /** The lower-cased titles of a buffer: exactly what its `_seen` set holds. */
  function Keys(tasks: seq<string>): set<string> {
    set t | t in tasks :: Lower(t)
  }

  /** No two titles share a lower-case form. */
  predicate DistinctKeys(tasks: seq<string>) {
    forall i, j :: 0 <= i < j < |tasks| ==> Lower(tasks[i]) != Lower(tasks[j])
  }

  predicate NonEmpty(s: string) {
    s != []
  }

  /** The cleaned titles of `raws` that are not blank, in order. */
  function CleanedTasks(raws: seq<string>): seq<string> {
    MapFilter(raws, CleanTask, NonEmpty)
  }

  /** A non-blank cleaned title is tidy. */
  lemma CleanTaskTidy(raw: string)
    requires CleanTask(raw) != []
    ensures Tidy(CleanTask(raw))
  {
    var s := Strip(raw);
    assert CleanTask(raw) == CollapseSpaces(s);
  }

  /** Every cleaned title is tidy. */
  lemma CleanedTasksTidy(raws: seq<string>)
    ensures forall t :: t in CleanedTasks(raws) ==> Tidy(t)
  {
    forall raw | raw in raws && NonEmpty(CleanTask(raw)) ensures Tidy(CleanTask(raw)) {
      CleanTaskTidy(raw);
    }
    MapFilterAll(raws, CleanTask, NonEmpty, Tidy);
  }

  /**
   * A buffer's titles after adding `raws`: each is cleaned, blank ones are
   * skipped, and so is one whose lower-case form is already present.
   */
  function MergeTasks(tasks: seq<string>, raws: seq<string>): seq<string> {
    tasks + KeepFirstBy(CleanedTasks(raws), Lower, Keys(tasks))
  }

  lemma KeysSnoc(tasks: seq<string>, t: string)
    ensures Keys(tasks + [t]) == Keys(tasks) + {Lower(t)}
  {
  }

  lemma AppendAssoc(a: seq<string>, b: seq<string>, c: seq<string>)
    ensures a + (b + c) == (a + b) + c
  {
  }

  /** The title loop of `collapse_mark_done_actions`, with its `_seen` set as a local. */
  method AddTasks(tasks: seq<string>, raws: seq<string>) returns (r: seq<string>)
    ensures r == MergeTasks(tasks, raws)
  {
    r := tasks;
    var seen := Keys(tasks);
    for i := 0 to |raws|
      invariant seen == Keys(r)
      invariant r + KeepFirstBy(CleanedTasks(raws[i..]), Lower, seen) == MergeTasks(tasks, raws)
    {
      MapFilterKeepFirstStep(raws, i, CleanTask, NonEmpty, Lower, seen);
      var cleaned := CleanTask(raws[i]);
      if cleaned == [] {
        continue;
      }
      var key := Lower(cleaned);
      if key in seen {
        continue;
      }
      KeysSnoc(r, cleaned);
      AppendAssoc(r, [cleaned], KeepFirstBy(CleanedTasks(raws[i + 1..]), Lower, seen + {key}));
      seen := seen + {key};
      r := r + [cleaned];
    }
    assert raws[|raws|..] == [];
  }

  /** Adding titles keeps every title tidy and every lower-case form unique, and keeps the earlier titles first. */
  lemma MergeTasksClean(tasks: seq<string>, raws: seq<string>)
    requires DistinctKeys(tasks) && forall k :: 0 <= k < |tasks| ==> Tidy(tasks[k])
    ensures var r := MergeTasks(tasks, raws);
            DistinctKeys(r) && (forall k :: 0 <= k < |r| ==> Tidy(r[k])) && r[..|tasks|] == tasks
  {
    var xs := CleanedTasks(raws);
    var added := KeepFirstBy(xs, Lower, Keys(tasks));
    KeepFirstByDistinct(xs, Lower, Keys(tasks));
    CleanedTasksTidy(raws);
    var r := tasks + added;
    forall i, j | 0 <= i < j < |r| ensures Lower(r[i]) != Lower(r[j]) {
      if j >= |tasks| && i < |tasks| {
        assert r[j] == added[j - |tasks|];
        assert Lower(r[i]) in Keys(tasks);
      } else if i >= |tasks| {
        assert r[i] == added[i - |tasks|] && r[j] == added[j - |tasks|];
      }
    }
    forall k | 0 <= k < |r| ensures Tidy(r[k]) {
      if k >= |tasks| {
        assert r[k] == added[k - |tasks|];
        assert r[k] in xs;
      }
    }
    assert r[..|tasks|] == tasks;
  }

  /** The lower-case forms after adding titles are the old ones plus those of every non-blank cleaned title. */
  lemma KeysOfMerge(tasks: seq<string>, raws: seq<string>, k: string)
    ensures k in Keys(MergeTasks(tasks, raws)) <==> k in Keys(tasks) || exists x :: x in CleanedTasks(raws) && Lower(x) == k
  {
    var xs := CleanedTasks(raws);
    var added := KeepFirstBy(xs, Lower, Keys(tasks));
    if x :| x in xs && Lower(x) == k {
      if k !in Keys(tasks) {
        KeepFirstByCovers(xs, Lower, Keys(tasks), x);
        var j :| 0 <= j < |added| && Lower(added[j]) == k;
        assert (tasks + added)[|tasks| + j] == added[j];
      }
    }
    if k in Keys(MergeTasks(tasks, raws)) {
      var t :| t in tasks + added && Lower(t) == k;
      if t !in tasks {
        var j :| 0 <= j < |added| && added[j] == t;
        assert t in xs;
      }
    }
  }

  /** Adding two groups of titles one after the other is adding them at once: de-duplication spans the groups. */
  lemma MergeTasksAppend(tasks: seq<string>, a: seq<string>, b: seq<string>)
    ensures MergeTasks(MergeTasks(tasks, a), b) == MergeTasks(tasks, a + b)
  {
    var ca, cb := CleanedTasks(a), CleanedTasks(b);
    MapFilterAppend(a, b, CleanTask, NonEmpty);
    var ka := KeepFirstBy(ca, Lower, Keys(tasks));
    var s1 := Keys(tasks + ka);
    forall y | y in cb
      ensures Lower(y) in s1 <==> Lower(y) in Keys(tasks) || exists x :: x in ca && Lower(x) == Lower(y)
    {
      KeysOfMerge(tasks, a, Lower(y));
    }
    KeepFirstByAppend(ca, cb, Lower, Keys(tasks), s1);
    AppendAssoc(tasks, ka, KeepFirstBy(cb, Lower, s1));
  }

  // ----- meta -----

  function MetaOrEmpty(m: Option<Dict>): Dict {
    if m.Some? then m.value else map[]
  }

  /**
   * The buffer's `meta` after merging a later action's `meta` into it:
   * `fuzzy` becomes the truth of either side, and any other key keeps the
   * value the buffer already had.
   */
  function MergeMeta(bm: Dict, m: Dict): (r: Dict)
    ensures r.Keys == bm.Keys + m.Keys
    ensures "fuzzy" in m ==> r["fuzzy"] == Bool(Truthy(Get(bm, "fuzzy")) || Truthy(m["fuzzy"]))
    ensures forall k :: k in r && k != "fuzzy" ==> r[k] == if k in bm then bm[k] else m[k]
    ensures "fuzzy" !in m ==> Get(r, "fuzzy") == Get(bm, "fuzzy")
  {
    map k | k in bm.Keys + m.Keys ::
      if k == "fuzzy" && k in m then Bool(Truthy(Get(bm, "fuzzy")) || Truthy(m[k]))
      else if k in bm then bm[k]
      else m[k]
  }

  /** The buffer's optional `meta` after an action with `meta` joins: untouched when that is empty. */
  function MergedMeta(bm: Option<Dict>, meta: Dict): Option<Dict> {
    if meta == map[] then bm else Some(MergeMeta(MetaOrEmpty(bm), meta))
  }

  /** What one merge does to the `meta` keys and to the truth of `fuzzy`. */
  lemma MergedMetaStep(bm: Option<Dict>, meta: Dict)
    ensures var m, m' := MetaOrEmpty(bm), MetaOrEmpty(MergedMeta(bm, meta));
            (Truthy(Get(m', "fuzzy")) <==> Truthy(Get(m, "fuzzy")) || Truthy(Get(meta, "fuzzy"))) &&
            (forall k :: k in m' <==> k in m || k in meta) &&
            (forall k :: k != "fuzzy" && k in m ==> m'[k] == m[k]) &&
            (forall k :: k != "fuzzy" && k !in m && k in meta ==> m'[k] == meta[k])
  {
  }

  /** The `for m_key, m_value in meta.items()` loop; the keys are visited in any order. */
  method MergeMetaInto(bm: Dict, m: Dict) returns (r: Dict)
    ensures r == MergeMeta(bm, m)
  {
    ghost var target := MergeMeta(bm, m);
    r := bm;
    var rest := m.Keys;
    while rest != {}
      invariant rest <= m.Keys
      invariant r.Keys == bm.Keys + (m.Keys - rest)
      invariant forall k :: k in r ==> r[k] == if k in m.Keys - rest then target[k] else bm[k]
      decreases rest
    {
      var k :| k in rest;
      if k == "fuzzy" {
        assert Get(r, "fuzzy") == Get(bm, "fuzzy");
        r := r["fuzzy" := Bool(Truthy(Get(r, "fuzzy")) || Truthy(m[k]))];
      } else if k !in r {
        r := r[k := m[k]];
      }
      rest := rest - {k};
    }
    assert r.Keys == target.Keys;
  }

  // ----- the buffer -----

  /** The pending batched `mark_done`; its `_seen` set is always `Keys(tasks)` and is not stored. */
  datatype Buffer = Buffer(entityType: Value, list: Value, tasks: seq<string>, meta: Option<Dict>)

  function Strs(ts: seq<string>): (r: seq<Value>)
    ensures |r| == |ts| && forall i :: 0 <= i < |ts| ==> r[i] == Str(ts[i])
  {
    seq(|ts|, i requires 0 <= i < |ts| => Str(ts[i]))
  }

  /** The action `flush_buffer` emits: `_seen` removed, and an empty `meta` removed when there are titles. */
  function BufferAction(b: Buffer): Dict {
    var base := map["action" := Str("mark_done"), "entity_type" := b.entityType, "list" := b.list,
                    "tasks" := Arr(Strs(b.tasks))];
    if b.meta.Some? && (b.tasks == [] || b.meta.value != map[]) then base["meta" := Obj(b.meta.value)] else base
  }

  predicate IsMarkDone(d: Dict) {
    Get(d, "action") == Str("mark_done")
  }

  /** The string members of a list value, in order. */
  function Strings(items: seq<Value>): seq<string>
    decreases |items|
  {
    if items == [] then []
    else (if items[0].Str? then [items[0].s] else []) + Strings(items[1..])
  }

  /** `obj.get("title") or obj.get("task")`. */
  function TitleValue(obj: Dict): Value {
    if Truthy(Get(obj, "title")) then Get(obj, "title") else Get(obj, "task")
  }

  /**
   * The titles a `mark_done` action names: the strings of its `tasks` list,
   * then the pieces `extract` splits its non-blank title into, or the whole
   * title when it splits into nothing.
   */
  function CurrentTasks(obj: Dict, extract: string -> seq<string>): seq<string> {
    var listed := if Get(obj, "tasks").Arr? then Strings(Get(obj, "tasks").items) else [];
    var title := TitleValue(obj);
    if title.Str? && Strip(title.s) != [] then
      var extracted := extract(title.s);
      listed + (if extracted != [] then extracted else [title.s])
    else listed
  }

  /** `obj.get("entity_type", "task")`. */
  function EntityTypeOf(obj: Dict): Value {
    if "entity_type" in obj then obj["entity_type"] else Str("task")
  }

  /** An action's `meta` when it is a dict, otherwise an empty one. */
  function MetaOf(obj: Dict): Dict {
    if Get(obj, "meta").Obj? then Get(obj, "meta").fields else map[]
  }

  /** The method's state between two actions: the output so far and the pending buffer. */
  datatype Collapsing = Collapsing(collapsed: seq<Dict>, buffer: Option<Buffer>)

  /** The output once the buffer, if any, is flushed. */
  function Flush(st: Collapsing): seq<Dict> {
    match st.buffer
    case None => st.collapsed
    case Some(b) => st.collapsed + [BufferAction(b)]
  }

  /** The buffer takes a `mark_done` action with the same `list` and `entity_type`. */
  predicate Joins(b: Buffer, obj: Dict) {
    b.list == Get(obj, "list") && b.entityType == EntityTypeOf(obj)
  }

  /** One iteration of the loop of `collapse_mark_done_actions`. */
  function Step(st: Collapsing, obj: Dict, extract: string -> seq<string>): Collapsing {
    var current := CurrentTasks(obj, extract);
    if !IsMarkDone(obj) || current == [] then Collapsing(Flush(st) + [obj], None)
    else
      var meta := MetaOf(obj);
      if st.buffer.Some? && Joins(st.buffer.value, obj) then
        var b := st.buffer.value;
        Collapsing(st.collapsed, Some(b.(tasks := MergeTasks(b.tasks, current), meta := MergedMeta(b.meta, meta))))
      else
        Collapsing(Flush(st), Some(Buffer(EntityTypeOf(obj), Get(obj, "list"), MergeTasks([], current),
                                          if meta == map[] then None else Some(meta))))
  }

  /** A `mark_done` action that joins the buffer only adds to it. */
  lemma StepJoins(st: Collapsing, obj: Dict, extract: string -> seq<string>)
    requires IsMarkDone(obj) && CurrentTasks(obj, extract) != [] && st.buffer.Some? && Joins(st.buffer.value, obj)
    ensures Step(st, obj, extract) ==
            Collapsing(st.collapsed, Some(st.buffer.value.(tasks := MergeTasks(st.buffer.value.tasks, CurrentTasks(obj, extract)),
                                                           meta := MergedMeta(st.buffer.value.meta, MetaOf(obj)))))
  {
  }

  /** A `mark_done` action naming titles starts a buffer when there is none. */
  lemma StepStarts(obj: Dict, extract: string -> seq<string>)
    requires IsMarkDone(obj) && CurrentTasks(obj, extract) != []
    ensures Step(Collapsing([], None), obj, extract) ==
            Collapsing([], Some(Buffer(EntityTypeOf(obj), Get(obj, "list"), MergeTasks([], CurrentTasks(obj, extract)),
                                       if MetaOf(obj) == map[] then None else Some(MetaOf(obj)))))
  {
  }

  /** The state after the given actions. */
  function CollapseFrom(actions: seq<Dict>, extract: string -> seq<string>): Collapsing
    decreases |actions|
  {
    if actions == [] then Collapsing([], None)
    else Step(CollapseFrom(actions[..|actions| - 1], extract), actions[|actions| - 1], extract)
  }

  /** The result of `collapse_mark_done_actions`. */
  function CollapseActions(actions: seq<Dict>, extract: string -> seq<string>): seq<Dict> {
    Flush(CollapseFrom(actions, extract))
  }

  /** The `tasks` loop: keep the string members. */
  method CollectStrings(items: seq<Value>) returns (r: seq<string>)
    ensures r == Strings(items)
  {
    r := [];
    for i := 0 to |items|
      invariant r + Strings(items[i..]) == Strings(items)
    {
      assert items[i..][0] == items[i] && items[i..][1..] == items[i + 1..];
      if items[i].Str? {
        r := r + [items[i].s];
      }
    }
    assert items[|items|..] == [];
  }

  /** The titles a `mark_done` action names, gathered as the loop body does. */
  method CollectTasks(obj: Dict, extract: string -> seq<string>) returns (current: seq<string>)
    ensures current == CurrentTasks(obj, extract)
  {
    current := [];
    if Get(obj, "tasks").Arr? {
      current := CollectStrings(Get(obj, "tasks").items);
    }
    var title := TitleValue(obj);
    if title.Str? && Strip(title.s) != [] {
      var extracted := extract(title.s);
      if extracted != [] {
        current := current + extracted;
      } else {
        current := current + [title.s];
      }
    }
  }

  /** The body of the loop: pass the action through, merge it into the buffer, or start a new buffer. */
  method CollapseStep(collapsed: seq<Dict>, buffer: Option<Buffer>, obj: Dict, extract: string -> seq<string>)
    returns (collapsed': seq<Dict>, buffer': Option<Buffer>)
    ensures Collapsing(collapsed', buffer') == Step(Collapsing(collapsed, buffer), obj, extract)
  {
    collapsed', buffer' := collapsed, buffer;
    var current := CollectTasks(obj, extract);
    if !IsMarkDone(obj) || current == [] {
      if buffer'.Some? {
        collapsed' := collapsed' + [BufferAction(buffer'.value)];
        buffer' := None;
      }
      collapsed' := collapsed' + [obj];
      return;
    }
    var meta := MetaOf(obj);
    if buffer'.Some? && Joins(buffer'.value, obj) {
      var tasks := AddTasks(buffer'.value.tasks, current);
      var merged := buffer'.value.meta;
      if meta != map[] {
        var m := MergeMetaInto(MetaOrEmpty(buffer'.value.meta), meta);
        merged := Some(m);
      }
      buffer' := Some(buffer'.value.(tasks := tasks, meta := merged));
      return;
    }
    if buffer'.Some? {
      collapsed' := collapsed' + [BufferAction(buffer'.value)];
    }
    var tasks := AddTasks([], current);
    buffer' := Some(Buffer(EntityTypeOf(obj), Get(obj, "list"), tasks, if meta == map[] then None else Some(meta)));
  }

  /** `collapse_mark_done_actions`. */
  method CollapseMarkDoneActions(actions: seq<Dict>, extract: string -> seq<string>) returns (collapsed: seq<Dict>)
    ensures collapsed == CollapseActions(actions, extract)
  {
    if actions == [] {
      return [];
    }
    collapsed := [];
    var buffer: Option<Buffer> := None;
    for i := 0 to |actions|
      invariant Collapsing(collapsed, buffer) == CollapseFrom(actions[..i], extract)
    {
      assert actions[..i + 1][..i] == actions[..i];
      collapsed, buffer := CollapseStep(collapsed, buffer, actions[i], extract);
    }
    assert actions[..|actions|] == actions;
    if buffer.Some? {
      collapsed := collapsed + [BufferAction(buffer.value)];
    }
  }

  // ----- what the collapsing keeps -----

  /** The actions other than `mark_done`, in order. */
  function Others(ds: seq<Dict>): seq<Dict>
    decreases |ds|
  {
    if ds == [] then []
    else Others(ds[..|ds| - 1]) + (if IsMarkDone(ds[|ds| - 1]) then [] else [ds[|ds| - 1]])
  }

  lemma {:induction false} OthersAppend(a: seq<Dict>, b: seq<Dict>)
    ensures Others(a + b) == Others(a) + Others(b)
    decreases |b|
  {
    if b == [] {
      assert a + b == a;
    } else {
      assert (a + b)[..|a + b| - 1] == a + b[..|b| - 1];
      OthersAppend(a, b[..|b| - 1]);
    }
  }

  /** A flushed buffer is a `mark_done` action and carries no `_seen` key. */
  lemma BufferActionIsMarkDone(b: Buffer)
    ensures IsMarkDone(BufferAction(b)) && "_seen" !in BufferAction(b)
    ensures Others([BufferAction(b)]) == []
  {
    assert [BufferAction(b)][..0] == [];
  }

  /** Every action other than `mark_done` comes out unchanged and in its original relative order. */
  lemma {:induction false} CollapseKeepsOthers(actions: seq<Dict>, extract: string -> seq<string>)
    ensures Others(CollapseActions(actions, extract)) == Others(actions)
    decreases |actions|
  {
    if actions != [] {
      var init := actions[..|actions| - 1];
      var obj := actions[|actions| - 1];
      assert actions == init + [obj];
      CollapseKeepsOthers(init, extract);
      OthersAppend(init, [obj]);
      assert [obj][..0] == [];
      var st := CollapseFrom(init, extract);
      var st' := Step(st, obj, extract);
      if !IsMarkDone(obj) || CurrentTasks(obj, extract) == [] {
        OthersAppend(Flush(st), [obj]);
      } else if st.buffer.Some? && Joins(st.buffer.value, obj) {
        BufferActionIsMarkDone(st.buffer.value);
        BufferActionIsMarkDone(st'.buffer.value);
        OthersAppend(st.collapsed, [BufferAction(st.buffer.value)]);
        OthersAppend(st.collapsed, [BufferAction(st'.buffer.value)]);
      } else {
        BufferActionIsMarkDone(st'.buffer.value);
        OthersAppend(Flush(st), [BufferAction(st'.buffer.value)]);
      }
    }
  }

  /** A buffer whose titles are tidy and distinct up to case. */
  predicate TidyBuffer(b: Buffer) {
    DistinctKeys(b.tasks) && forall k :: 0 <= k < |b.tasks| ==> Tidy(b.tasks[k])
  }

  /** A batched `mark_done` as emitted: no `_seen`, and a `tasks` list of tidy titles distinct up to case. */
  predicate IsBatch(d: Dict) {
    IsMarkDone(d) && "_seen" !in d && "tasks" in d && d["tasks"].Arr? &&
    var items := d["tasks"].items;
    (forall k :: 0 <= k < |items| ==> items[k].Str? && Tidy(items[k].s)) &&
    (forall i, j :: 0 <= i < j < |items| && items[i].Str? && items[j].Str? ==> Lower(items[i].s) != Lower(items[j].s))
  }

  lemma BatchOfTidyBuffer(b: Buffer)
    requires TidyBuffer(b)
    ensures IsBatch(BufferAction(b))
  {
    BufferActionIsMarkDone(b);
    assert BufferAction(b)["tasks"] == Arr(Strs(b.tasks));
  }

  lemma {:induction false} CollapseStateTidy(actions: seq<Dict>, extract: string -> seq<string>)
    ensures var st := CollapseFrom(actions, extract);
            (forall d :: d in st.collapsed ==> d in actions || IsBatch(d)) &&
            (st.buffer.Some? ==> TidyBuffer(st.buffer.value))
    decreases |actions|
  {
    if actions != [] {
      var init := actions[..|actions| - 1];
      var obj := actions[|actions| - 1];
      CollapseStateTidy(init, extract);
      var st := CollapseFrom(init, extract);
      var st' := Step(st, obj, extract);
      if st.buffer.Some? {
        BatchOfTidyBuffer(st.buffer.value);
      }
      assert forall d :: d in Flush(st) ==> d in actions || IsBatch(d);
      var current := CurrentTasks(obj, extract);
      if IsMarkDone(obj) && current != [] {
        if st.buffer.Some? && Joins(st.buffer.value, obj) {
          MergeTasksClean(st.buffer.value.tasks, current);
        } else {
          MergeTasksClean([], current);
        }
      }
    }
  }

  /** Every output action is an input action or a well-formed batched `mark_done`. */
  lemma CollapseOutputs(actions: seq<Dict>, extract: string -> seq<string>)
    ensures forall d :: d in CollapseActions(actions, extract) ==> d in actions || IsBatch(d)
  {
    CollapseStateTidy(actions, extract);
    var st := CollapseFrom(actions, extract);
    if st.buffer.Some? {
      BatchOfTidyBuffer(st.buffer.value);
    }
  }

  // ----- runs of mergeable actions -----

  /** A run of `mark_done` actions that all name titles and share `list` and `entity_type`. */
  predicate IsRun(actions: seq<Dict>, extract: string -> seq<string>) {
    actions != [] &&
    forall i :: 0 <= i < |actions| ==>
      IsMarkDone(actions[i]) && CurrentTasks(actions[i], extract) != [] &&
      Get(actions[i], "list") == Get(actions[0], "list") && EntityTypeOf(actions[i]) == EntityTypeOf(actions[0])
  }

  /** All titles a run names, in order. */
  function RunTasks(actions: seq<Dict>, extract: string -> seq<string>): seq<string>
    decreases |actions|
  {
    if actions == [] then []
    else RunTasks(actions[..|actions| - 1], extract) + CurrentTasks(actions[|actions| - 1], extract)
  }

  lemma RunPrefix(actions: seq<Dict>, extract: string -> seq<string>)
    requires IsRun(actions, extract) && |actions| > 1
    ensures IsRun(actions[..|actions| - 1], extract)
  {
    var init := actions[..|actions| - 1];
    assert forall i :: 0 <= i < |init| ==> init[i] == actions[i];
  }

  /**
   * A run collapses into one batched action for its `list` and `entity_type`,
   * holding the cleaned titles of the whole run with case-insensitive
   * duplicates removed, first occurrence kept.
   */
  lemma {:induction false} RunMerges(actions: seq<Dict>, extract: string -> seq<string>)
    requires IsRun(actions, extract)
    ensures var st := CollapseFrom(actions, extract);
            st.collapsed == [] && st.buffer.Some? &&
            CollapseActions(actions, extract) == [BufferAction(st.buffer.value)] &&
            st.buffer.value.list == Get(actions[0], "list") && st.buffer.value.entityType == EntityTypeOf(actions[0]) &&
            st.buffer.value.tasks == MergeTasks([], RunTasks(actions, extract))
    decreases |actions|
  {
    var init := actions[..|actions| - 1];
    var obj := actions[|actions| - 1];
    if |actions| == 1 {
      assert init == [];
      StepStarts(obj, extract);
      assert RunTasks(actions, extract) == CurrentTasks(obj, extract);
    } else {
      RunPrefix(actions, extract);
      RunMerges(init, extract);
      assert init[0] == actions[0];
      StepJoins(CollapseFrom(init, extract), obj, extract);
      MergeTasksAppend([], RunTasks(init, extract), CurrentTasks(obj, extract));
    }
  }

  /** The `meta` a run's buffer ends with: the first action's, merged with each later one. */
  function RunMetaOf(actions: seq<Dict>): Option<Dict>
    requires actions != []
    decreases |actions|
  {
    var meta := MetaOf(actions[|actions| - 1]);
    if |actions| == 1 then (if meta == map[] then None else Some(meta))
    else MergedMeta(RunMetaOf(actions[..|actions| - 1]), meta)
  }

  /** Collapsing a run leaves a buffer whose `meta` is `RunMetaOf` of the run. */
  lemma {:induction false} RunMergesMeta(actions: seq<Dict>, extract: string -> seq<string>)
    requires IsRun(actions, extract)
    ensures CollapseFrom(actions, extract).buffer.Some?
    ensures CollapseFrom(actions, extract).buffer.value.meta == RunMetaOf(actions)
    decreases |actions|
  {
    RunMerges(actions, extract);
    var init := actions[..|actions| - 1];
    var obj := actions[|actions| - 1];
    if |actions| == 1 {
      assert init == [];
      StepStarts(obj, extract);
    } else {
      RunPrefix(actions, extract);
      RunMerges(init, extract);
      RunMergesMeta(init, extract);
      assert init[0] == actions[0];
      StepJoins(CollapseFrom(init, extract), obj, extract);
    }
  }

  /** `fuzzy` is true iff some action's is, and a key is present iff some action's meta has it. */
  lemma {:induction false} RunMetaOfKeys(actions: seq<Dict>)
    requires actions != []
    ensures var m := MetaOrEmpty(RunMetaOf(actions));
            (Truthy(Get(m, "fuzzy")) <==> exists i :: 0 <= i < |actions| && Truthy(Get(MetaOf(actions[i]), "fuzzy"))) &&
            (forall k :: k in m <==> exists i :: 0 <= i < |actions| && k in MetaOf(actions[i]))
    decreases |actions|
  {
    if |actions| > 1 {
      var init := actions[..|actions| - 1];
      RunMetaOfKeys(init);
      MergedMetaStep(RunMetaOf(init), MetaOf(actions[|actions| - 1]));
      assert forall i :: 0 <= i < |init| ==> init[i] == actions[i];
    }
  }

  /** Any key other than `fuzzy` keeps the value of the first action whose meta has it. */
  lemma {:induction false} RunMetaOfFirstValue(actions: seq<Dict>, key: string, i: nat)
    requires key != "fuzzy"
    requires i < |actions| && key in MetaOf(actions[i]) && forall j :: 0 <= j < i ==> key !in MetaOf(actions[j])
    ensures var m := MetaOrEmpty(RunMetaOf(actions));
            key in m && m[key] == MetaOf(actions[i])[key]
    decreases |actions|
  {
    if |actions| > 1 {
      var init := actions[..|actions| - 1];
      MergedMetaStep(RunMetaOf(init), MetaOf(actions[|actions| - 1]));
      assert forall j :: 0 <= j < |init| ==> init[j] == actions[j];
      if i < |init| {
        RunMetaOfFirstValue(init, key, i);
      } else {
        RunMetaOfKeys(init);
      }
    }
  }

  /**
   * In the merged `meta` of a run, `fuzzy` is true exactly when some action's
   * `fuzzy` is, and a key is present exactly when some action's `meta` has it.
   */
  lemma RunMeta(actions: seq<Dict>, extract: string -> seq<string>)
    requires IsRun(actions, extract)
    ensures CollapseFrom(actions, extract).buffer.Some?
    ensures var m := MetaOrEmpty(CollapseFrom(actions, extract).buffer.value.meta);
            (Truthy(Get(m, "fuzzy")) <==> exists i :: 0 <= i < |actions| && Truthy(Get(MetaOf(actions[i]), "fuzzy"))) &&
            (forall k :: k in m <==> exists i :: 0 <= i < |actions| && k in MetaOf(actions[i]))
  {
    RunMergesMeta(actions, extract);
    RunMetaOfKeys(actions);
  }

  /** Any other `meta` key of a run keeps the value of the first action that has it. */
  lemma RunMetaFirstValue(actions: seq<Dict>, extract: string -> seq<string>, key: string, i: nat)
    requires IsRun(actions, extract) && key != "fuzzy"
    requires i < |actions| && key in MetaOf(actions[i]) && forall j :: 0 <= j < i ==> key !in MetaOf(actions[j])
    ensures CollapseFrom(actions, extract).buffer.Some?
    ensures var m := MetaOrEmpty(CollapseFrom(actions, extract).buffer.value.meta);
            key in m && m[key] == MetaOf(actions[i])[key]
  {
    RunMergesMeta(actions, extract);
    RunMetaOfFirstValue(actions, key, i);
  }
}
