/**
 * The list-rewriting pipeline the bot applies to the actions a language model
 * replies with (main.py): synonym canonicalisation of one action, flattening
 * of the replies into one action list, and merging of consecutive
 * `mark_done` actions into one batched action.
 */
module Actions {
  import opened Wrappers
  import opened Seqs
  import opened Text

  /** A JSON value as decoded from a reply. */
  datatype Value =
    | Null
    | Bool(b: bool)
    | Num(x: real)
    | Str(s: string)
    | Arr(items: seq<Value>)
    | Obj(fields: map<string, Value>)

  /** A JSON object (a Python `dict`); key order is not modelled. */
  type Dict = map<string, Value>

  /** Python truthiness of a JSON value. */
  predicate Truthy(v: Value) {
    match v
    case Null => false
    case Bool(b) => b
    case Num(x) => x != 0.0
    case Str(s) => s != []
    case Arr(items) => items != []
    case Obj(fields) => fields != map[]
  }

  /** `d.get(key)`: a missing key reads as `None`. */
  function Get(d: Dict, key: string): Value {
    if key in d then d[key] else Null
  }

  // ----- canonicalize_action_dict -----

  /** `TASK_ENTITY_SYNONYMS`. */
  const TaskEntitySynonyms: set<string> :=
    {"task", "tasks", "todo", "todos", "note", "notes", "reminder", "reminders", "entry", "item"}

  /** `ACTION_SYNONYM_MAP`: a synonym's canonical action and default entity type. */
  function ActionSynonym(name: string): Option<(string, string)> {
    match name
    case "add_note" => Some(("add_task", "task"))
    case "add_notes" => Some(("add_task", "task"))
    case "add_reminder" => Some(("add_task", "task"))
    case "add_reminders" => Some(("add_task", "task"))
    case "create_note" => Some(("add_task", "task"))
    case "create_notes" => Some(("add_task", "task"))
    case "create_reminder" => Some(("add_task", "task"))
    case "create_reminders" => Some(("add_task", "task"))
    case "complete_note" => Some(("mark_done", "task"))
    case "complete_notes" => Some(("mark_done", "task"))
    case "complete_reminder" => Some(("mark_done", "task"))
    case "complete_reminders" => Some(("mark_done", "task"))
    case "finish_note" => Some(("mark_done", "task"))
    case "finish_reminder" => Some(("mark_done", "task"))
    case "delete_note" => Some(("delete_task", "task"))
    case "delete_notes" => Some(("delete_task", "task"))
    case "delete_reminder" => Some(("delete_task", "task"))
    case "delete_reminders" => Some(("delete_task", "task"))
    case "remove_note" => Some(("delete_task", "task"))
    case "remove_reminder" => Some(("delete_task", "task"))
    case "restore_note" => Some(("restore_task", "task"))
    case "restore_notes" => Some(("restore_task", "task"))
    case "restore_reminder" => Some(("restore_task", "task"))
    case "restore_reminders" => Some(("restore_task", "task"))
    case "update_note" => Some(("update_task", "task"))
    case "update_reminder" => Some(("update_task", "task"))
    case "move_note" => Some(("move_entity", "task"))
    case "move_reminder" => Some(("move_entity", "task"))
    case "show_notes" => Some(("show_tasks", "task"))
    case "show_reminders" => Some(("show_tasks", "task"))
    case "list_notes" => Some(("show_tasks", "task"))
    case "list_reminders" => Some(("show_tasks", "task"))
    case _ => None
  }

  /** An `entity_type` that names tasks under another word, in any case. */
  predicate IsTaskSynonym(v: Value) {
    v.Str? && Lower(v.s) in TaskEntitySynonyms
  }

  /** An action name the synonym table rewrites, in any case. */
  predicate IsActionSynonym(v: Value) {
    v.Str? && ActionSynonym(Lower(v.s)).Some?
  }

  /**
   * `canonicalize_action_dict`: a copy whose string `action` is replaced by
   * its canonical name (filling a falsy `entity_type` with the synonym's
   * default) or else lower-cased, and whose task-synonym `entity_type`
   * becomes "task".
   */
  function Canonicalize(obj: Dict): (r: Dict)
    ensures r.Keys == obj.Keys + (if IsActionSynonym(Get(obj, "action")) then {"entity_type"} else {})
    ensures forall k :: k in obj && k != "action" && k != "entity_type" ==> r[k] == obj[k]
    ensures var a := Get(obj, "action");
            (IsActionSynonym(a) ==> r["action"] == Str(ActionSynonym(Lower(a.s)).value.0)) &&
            (a.Str? && !IsActionSynonym(a) ==> r["action"] == Str(Lower(a.s))) &&
            (!a.Str? ==> Get(r, "action") == a)
    ensures var e := Get(obj, "entity_type");
            (IsTaskSynonym(e) ==> r["entity_type"] == Str("task")) &&
            (Truthy(e) && !IsTaskSynonym(e) ==> r["entity_type"] == e) &&
            (!Truthy(e) && IsActionSynonym(Get(obj, "action")) ==> r["entity_type"] == Str("task")) &&
            (!Truthy(e) && !IsActionSynonym(Get(obj, "action")) ==> Get(r, "entity_type") == e)
  {
    var withAction :=
      match Get(obj, "action")
      case Str(name) =>
        var lowered := Lower(name);
        if ActionSynonym(lowered).Some? then
          var (mapped, defaultEntity) := ActionSynonym(lowered).value;
          var c := obj["action" := Str(mapped)];
          if defaultEntity != [] && !Truthy(Get(c, "entity_type")) then c["entity_type" := Str(defaultEntity)] else c
        else obj["action" := Str(lowered)]
      case _ => obj;
    var entityType := Get(withAction, "entity_type");
    if entityType.Str? && Lower(entityType.s) in TaskEntitySynonyms then withAction["entity_type" := Str("task")]
    else withAction
  }

  /** A string without letters `Lower` would change. */
  predicate IsLower(s: string) {
    forall i :: 0 <= i < |s| ==> LowerChar(s[i]) == s[i]
  }

  lemma LowerOfLower(s: string)
    requires IsLower(s)
    ensures Lower(s) == s
  {
  }

  /** The actions the synonym table rewrites to. */
  const CanonicalActions: set<string> :=
    {"add_task", "mark_done", "delete_task", "restore_task", "update_task", "move_entity", "show_tasks"}

  /** Every synonym maps to a canonical action, with "task" as its default entity type. */
  lemma SynonymTargets(name: string)
    requires ActionSynonym(name).Some?
    ensures ActionSynonym(name).value.0 in CanonicalActions && ActionSynonym(name).value.1 == "task"
  {
  }

  /** The canonical actions are lower-case and are not synonyms themselves. */
  lemma CanonicalActionsAreFixed(mapped: string)
    requires mapped in CanonicalActions
    ensures Lower(mapped) == mapped && ActionSynonym(mapped).None?
  {
    if mapped == "add_task" {
      AddTaskFixed();
    } else if mapped == "mark_done" {
      MarkDoneFixed();
    } else if mapped == "delete_task" {
      DeleteTaskFixed();
    } else if mapped == "restore_task" {
      RestoreTaskFixed();
    } else if mapped == "update_task" {
      UpdateTaskFixed();
    } else if mapped == "move_entity" {
      MoveEntityFixed();
    } else {
      ShowTasksFixed();
    }
  }

  lemma AddTaskFixed()
    ensures Lower("add_task") == "add_task" && ActionSynonym("add_task").None?
  {
    LowerOfLower("add_task");
  }

  lemma MarkDoneFixed()
    ensures Lower("mark_done") == "mark_done" && ActionSynonym("mark_done").None?
  {
    LowerOfLower("mark_done");
  }

  lemma DeleteTaskFixed()
    ensures Lower("delete_task") == "delete_task" && ActionSynonym("delete_task").None?
  {
    LowerOfLower("delete_task");
  }

  lemma RestoreTaskFixed()
    ensures Lower("restore_task") == "restore_task" && ActionSynonym("restore_task").None?
  {
    LowerOfLower("restore_task");
  }

  lemma UpdateTaskFixed()
    ensures Lower("update_task") == "update_task" && ActionSynonym("update_task").None?
  {
    LowerOfLower("update_task");
  }

  lemma MoveEntityFixed()
    ensures Lower("move_entity") == "move_entity" && ActionSynonym("move_entity").None?
  {
    LowerOfLower("move_entity");
  }

  lemma ShowTasksFixed()
    ensures Lower("show_tasks") == "show_tasks" && ActionSynonym("show_tasks").None?
  {
    LowerOfLower("show_tasks");
  }

  /** Every canonical action is lower-case and is not itself a synonym; every default entity type is "task". */
  lemma SynonymTargetsAreCanonical(name: string)
    requires ActionSynonym(name).Some?
    ensures var (mapped, defaultEntity) := ActionSynonym(name).value;
            Lower(mapped) == mapped && ActionSynonym(mapped).None? && defaultEntity == "task"
  {
    SynonymTargets(name);
    CanonicalActionsAreFixed(ActionSynonym(name).value.0);
  }

  /** Canonicalising an already canonical action changes nothing. */
  lemma CanonicalizeIdempotent(obj: Dict)
    ensures Canonicalize(Canonicalize(obj)) == Canonicalize(obj)
  {
    var c := Canonicalize(obj);
    var a := Get(obj, "action");
    if IsActionSynonym(a) {
      SynonymTargetsAreCanonical(Lower(a.s));
      LowerOfLower("task");
    } else if a.Str? {
      LowerIdempotent(a.s);
      var e := Get(obj, "entity_type");
      if IsTaskSynonym(e) {
        LowerOfLower("task");
      }
    } else {
      if IsTaskSynonym(Get(obj, "entity_type")) {
        LowerOfLower("task");
      }
    }
    assert Canonicalize(c).Keys == c.Keys;
  }

  // ----- normalize_action_payloads -----

  /** The friendly `say` action that reads out a reply's summary text. */
  function SayAction(text: string): Dict {
    map["action" := Str("say"), "text" := Str(text),
        "meta" := Obj(map["tone" := Str("friendly"), "source" := Str("semantic_summary")])]
  }

  /** The `say` action a reply's non-blank `ui_text` adds after its actions. */
  function SayActions(uiText: Value): (r: seq<Dict>)
    ensures |r| <= 1
    ensures r != [] <==> uiText.Str? && !IsBlank(uiText.s)
  {
    if uiText.Str? && Strip(uiText.s) != [] then [SayAction(Strip(uiText.s))] else []
  }

  predicate IsObj(v: Value) {
    v.Obj?
  }

  /** The canonical forms of the dict members of an `actions` list, in order. */
  function InnerActions(items: seq<Value>): (r: seq<Dict>)
    decreases |items|
  {
    if items == [] then []
    else
      var last := items[|items| - 1];
      InnerActions(items[..|items| - 1]) + (if last.Obj? then [Canonicalize(last.fields)] else [])
  }

  /** What one reply contributes to the flattened action list. */
  function PayloadActions(obj: Value): seq<Dict> {
    match obj
    case Obj(d) =>
      if "actions" in d && d["actions"].Arr? then InnerActions(d["actions"].items) + SayActions(Get(d, "ui_text"))
      else [Canonicalize(d)]
    case _ => []
  }

  /** The flattened action list of a sequence of replies. */
  function NormalizePayloads(payloads: seq<Value>): seq<Dict>
    decreases |payloads|
  {
    if payloads == [] then []
    else NormalizePayloads(payloads[..|payloads| - 1]) + PayloadActions(payloads[|payloads| - 1])
  }

  /** The inner loop of `normalize_action_payloads`: canonicalise the dict members of an `actions` list. */
  method CanonicalizeMembers(items: seq<Value>) returns (r: seq<Dict>)
    ensures r == InnerActions(items)
  {
    r := [];
    for j := 0 to |items|
      invariant r == InnerActions(items[..j])
    {
      assert items[..j + 1][..j] == items[..j];
      if items[j].Obj? {
        r := r + [Canonicalize(items[j].fields)];
      }
    }
    assert items[..|items|] == items;
  }

  /** `normalize_action_payloads`. */
  method NormalizeActionPayloads(payloads: seq<Value>) returns (normalized: seq<Dict>)
    ensures normalized == NormalizePayloads(payloads)
  {
    if payloads == [] {
      return [];
    }
    normalized := [];
    for i := 0 to |payloads|
      invariant normalized == NormalizePayloads(payloads[..i])
    {
      assert payloads[..i + 1][..i] == payloads[..i];
      var acts := ReplyActions(payloads[i]);
      normalized := normalized + acts;
    }
    assert payloads[..|payloads|] == payloads;
  }

  /** One pass of the loop of `normalize_action_payloads`: what one reply contributes. */
  method ReplyActions(obj: Value) returns (acts: seq<Dict>)
    ensures acts == PayloadActions(obj)
  {
    acts := [];
    if obj.Obj? && "actions" in obj.fields && obj.fields["actions"].Arr? {
      acts := CanonicalizeMembers(obj.fields["actions"].items);
      var uiText := Get(obj.fields, "ui_text");
      if uiText.Str? && Strip(uiText.s) != [] {
        acts := acts + [SayAction(Strip(uiText.s))];
      }
      return;
    }
    if obj.Obj? {
      acts := [Canonicalize(obj.fields)];
    }
  }

  /** An `actions` list contributes the canonical forms of exactly its dict members, in their order. */
  lemma {:induction false} InnerActionsAreDictMembers(items: seq<Value>)
    ensures var pos := Positions(items, IsObj);
            InnerActions(items) == seq(|pos|, k requires 0 <= k < |pos| => Canonicalize(items[pos[k]].fields))
    decreases |items|
  {
    if items != [] {
      var init := items[..|items| - 1];
      InnerActionsAreDictMembers(init);
      var pos := Positions(items, IsObj);
      var pre := Positions(init, IsObj);
      var r := InnerActions(items);
      var want := seq(|pos|, k requires 0 <= k < |pos| => Canonicalize(items[pos[k]].fields));
      assert |r| == |want|;
      forall k | 0 <= k < |pos| ensures r[k] == want[k] {
        if k < |pre| {
          assert items[pre[k]] == init[pre[k]];
        }
      }
    }
  }

  /** Flattening distributes over concatenation of the replies. */
  lemma {:induction false} NormalizeAppend(a: seq<Value>, b: seq<Value>)
    ensures NormalizePayloads(a + b) == NormalizePayloads(a) + NormalizePayloads(b)
    decreases |b|
  {
    if b == [] {
      assert a + b == a;
    } else {
      var b' := b[..|b| - 1];
      assert (a + b)[..|a + b| - 1] == a + b';
      NormalizeAppend(a, b');
    }
  }

  /** A payload that is not a dict contributes nothing. */
  lemma NonDictIsDropped(a: seq<Value>, v: Value, b: seq<Value>)
    requires !v.Obj?
    ensures NormalizePayloads(a + [v] + b) == NormalizePayloads(a + b)
  {
    NormalizeAppend(a + [v], b);
    NormalizeAppend(a, [v]);
    NormalizeAppend(a, b);
    NonDictAlone(v);
    assert NormalizePayloads(a) + [] == NormalizePayloads(a);
  }

  lemma NonDictAlone(v: Value)
    requires !v.Obj?
    ensures NormalizePayloads([v]) == []
  {
    assert [v][..0] == [];
    assert PayloadActions(v) == [];
  }

  /** The `say` action is already canonical. */
  lemma SayIsCanonical(text: string)
    ensures Canonicalize(SayAction(text)) == SayAction(text)
  {
    var d := SayAction(text);
    LowerOfLower("say");
    assert ActionSynonym("say").None?;
    assert !IsActionSynonym(Get(d, "action"));
    assert Get(d, "entity_type") == Null;
    assert d["action" := Str("say")] == d;
  }

  /** Every flattened action is in canonical form. */
  lemma {:induction false} NormalizedAreCanonical(payloads: seq<Value>)
    ensures forall d :: d in NormalizePayloads(payloads) ==> Canonicalize(d) == d
    decreases |payloads|
  {
    if payloads != [] {
      NormalizedAreCanonical(payloads[..|payloads| - 1]);
      var last := payloads[|payloads| - 1];
      forall d | d in PayloadActions(last) ensures Canonicalize(d) == d {
        if last.Obj? && "actions" in last.fields && last.fields["actions"].Arr? {
          var items := last.fields["actions"].items;
          if d in InnerActions(items) {
            InnerActionsCanonical(items, d);
          } else {
            SayIsCanonical(Strip(Get(last.fields, "ui_text").s));
          }
        } else {
          CanonicalizeIdempotent(last.fields);
        }
      }
    }
  }

  lemma {:induction false} InnerActionsCanonical(items: seq<Value>, d: Dict)
    requires d in InnerActions(items)
    ensures Canonicalize(d) == d
    decreases |items|
  {
    var init := items[..|items| - 1];
    var last := items[|items| - 1];
    if d in InnerActions(init) {
      InnerActionsCanonical(init, d);
    } else {
      CanonicalizeIdempotent(last.fields);
    }
  }
}
