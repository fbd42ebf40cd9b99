// Adding a batch of titles to a list, one `add_task` call per title, as
// `process_task_additions` does: the loop stops at the first duplicate the
// user has to confirm, and every other title lands in exactly one bucket.

module Additions {
  import opened Wrappers
  import opened Table
  import opened Store

  /** A duplicate accepted without asking: the requested title and the existing one used instead. */
  datatype AutoUsed = AutoUsed(requested: string, existing: string, similarity: Option<real>)

  /** The duplicate that stopped the loop, with the titles still to add. */
  datatype Pending = Pending(list: string, requested: string, existing: string, similarity: Option<real>,
                             remaining: seq<string>)

  /** The `results` dict: `added`, `auto_used`, `duplicate` and `skipped`. */
  datatype Additions = Additions(added: seq<string>, autoUsed: seq<AutoUsed>, duplicate: Option<Pending>,
                                 skipped: seq<string>)

  const NoAdditions := Additions([], [], None, [])

  /** `add_result.get("title") or raw_task`. */
  function TitleToUse(res: CreationResult, raw: string): string {
    if res.title.Some? && res.title.value != [] then res.title.value else raw
  }

  /** Only the first title may be forced, and only when the caller asks. */
  predicate Forced(forceFirst: bool, idx: nat) {
    forceFirst && idx == 0
  }

  /** A duplicate that was not forced ends the loop. */
  predicate Halts(res: CreationResult, force: bool) {
    res.duplicateDetected && !force
  }

  /** What one `add_task` result does to the buckets. */
  function Record(acc: Additions, listName: string, tasks: seq<string>, idx: nat, res: CreationResult,
                  force: bool): Additions
    requires idx < |tasks|
  {
    var raw := tasks[idx];
    var title := TitleToUse(res, raw);
    if Halts(res, force) then
      acc.(duplicate := Some(Pending(listName, raw, title, res.similarity, tasks[idx + 1..])))
    else if res.created || res.restored then acc.(added := acc.added + [title])
    else if res.duplicateDetected then acc.(autoUsed := acc.autoUsed + [AutoUsed(raw, title, res.similarity)])
    else acc.(skipped := acc.skipped + [raw])
  }

  /**
   * The buckets after the loop has visited `|outs|` titles, where `outs[i]`
   * is the result of `add_task` for `tasks[i]`, or `None` for an empty
   * title, which is not passed to `add_task`.
   */
  function Tally(listName: string, tasks: seq<string>, forceFirst: bool, outs: seq<Option<CreationResult>>): Additions
    requires |outs| <= |tasks|
    decreases |outs|
  {
    if outs == [] then NoAdditions
    else
      var i := |outs| - 1;
      var acc := Tally(listName, tasks, forceFirst, outs[..i]);
      match outs[i]
      case None => acc
      case Some(res) => Record(acc, listName, tasks, i, res, Forced(forceFirst, i))
  }

  /** The number of titles passed to `add_task`. */
  function Calls(outs: seq<Option<CreationResult>>): nat
    decreases |outs|
  {
    if outs == [] then 0 else Calls(outs[..|outs| - 1]) + (if outs[|outs| - 1].Some? then 1 else 0)
  }

  /** A loop that has not stopped before its last visited title. */
  predicate NoEarlierHalt(forceFirst: bool, outs: seq<Option<CreationResult>>) {
    forall i :: 0 <= i < |outs| - 1 && outs[i].Some? ==> !Halts(outs[i].value, Forced(forceFirst, i))
  }

  /** Whether the last visited title stopped the loop. */
  predicate LastHalts(forceFirst: bool, outs: seq<Option<CreationResult>>) {
    outs != [] && outs[|outs| - 1].Some? && Halts(outs[|outs| - 1].value, Forced(forceFirst, |outs| - 1))
  }

  /**
   * `process_task_additions`: adds the titles in order, forcing the first when
   * `forceFirst` is set, and stops at the first duplicate that was not forced.
   * `outs` records what each visited title got from `add_task`.
   */
  method ProcessTaskAdditions(store: EntityStore, owner: int, listName: string, tasks: seq<string>, forceFirst: bool)
    returns (r: Additions, ghost outs: seq<Option<CreationResult>>)
    requires store.Valid()
    modifies store
    ensures store.Valid()
    ensures |outs| <= |tasks|
    ensures forall i :: 0 <= i < |outs| ==> (outs[i].None? <==> tasks[i] == [])
    ensures r == Tally(listName, tasks, forceFirst, outs)
    ensures NoEarlierHalt(forceFirst, outs)
    ensures LastHalts(forceFirst, outs) || |outs| == |tasks|
  {
    r := NoAdditions;
    outs := [];
    if tasks == [] {
      return;
    }
    for idx := 0 to |tasks|
      invariant store.Valid()
      invariant |outs| == idx
      invariant forall i :: 0 <= i < idx ==> (outs[i].None? <==> tasks[i] == [])
      invariant forall i :: 0 <= i < idx && outs[i].Some? ==> !Halts(outs[i].value, Forced(forceFirst, i))
      invariant r == Tally(listName, tasks, forceFirst, outs)
    {
      var raw := tasks[idx];
      if raw == [] {
        assert (outs + [None])[..idx] == outs;
        outs := outs + [None];
        continue;
      }
      var res;
      res, r := AddOne(store, owner, listName, tasks, idx, forceFirst && idx == 0, r);
      assert (outs + [Some(res)])[..idx] == outs;
      outs := outs + [Some(res)];
      if res.duplicateDetected && !(forceFirst && idx == 0) {
        break;
      }
    }
  }

  /**
   * One pass of the loop of `process_task_additions` for a non-empty title:
   * `add_task`, then the title goes into the bucket its result calls for.
   */
  method AddOne(store: EntityStore, owner: int, listName: string, tasks: seq<string>, idx: nat, force: bool,
                acc: Additions) returns (res: CreationResult, r: Additions)
    requires store.Valid() && idx < |tasks|
    modifies store
    ensures store.Valid()
    ensures res.missingParent <==> FindList(old(store.rows), owner, listName).None?
    ensures res.created ==> |store.rows| == |old(store.rows)| + 1 && store.rows[..|old(store.rows)|] == old(store.rows) &&
                            store.rows[|old(store.rows)|].title == tasks[idx] && res.title == Some(tasks[idx])
    ensures !res.created ==> |store.rows| == |old(store.rows)|
    ensures r == Record(acc, listName, tasks, idx, res, force)
  {
    var raw := tasks[idx];
    res := store.AddTask(owner, listName, raw, force);
    var title := if res.title.Some? && res.title.value != [] then res.title.value else raw;
    r := acc;
    if res.duplicateDetected && !force {
      r := r.(duplicate := Some(Pending(listName, raw, title, res.similarity, tasks[idx + 1..])));
    } else if res.created || res.restored {
      r := r.(added := r.added + [title]);
    } else if res.duplicateDetected {
      r := r.(autoUsed := r.autoUsed + [AutoUsed(raw, title, res.similarity)]);
    } else {
      r := r.(skipped := r.skipped + [raw]);
    }
  }

  /** An empty batch adds nothing. */
  lemma EmptyBatch(listName: string, forceFirst: bool)
    ensures Tally(listName, [], forceFirst, []) == NoAdditions
  {
  }

  /**
   * Every title passed to `add_task` lands in exactly one of `added`,
   * `auto_used` and `skipped`, except the one that stops the loop, which is
   * reported as the pending duplicate.
   */
  lemma {:induction false} TallyPartition(listName: string, tasks: seq<string>, forceFirst: bool,
                                          outs: seq<Option<CreationResult>>)
    requires |outs| <= |tasks| && NoEarlierHalt(forceFirst, outs)
    ensures var r := Tally(listName, tasks, forceFirst, outs);
            |r.added| + |r.autoUsed| + |r.skipped| + (if r.duplicate.Some? then 1 else 0) == Calls(outs)
    ensures Tally(listName, tasks, forceFirst, outs).duplicate.Some? <==> LastHalts(forceFirst, outs)
    decreases |outs|
  {
    if outs != [] {
      var init := outs[..|outs| - 1];
      assert NoEarlierHalt(forceFirst, init) by {
        forall i | 0 <= i < |init| - 1 && init[i].Some?
          ensures !Halts(init[i].value, Forced(forceFirst, i))
        {
          assert init[i] == outs[i];
        }
      }
      TallyPartition(listName, tasks, forceFirst, init);
    }
  }

  /**
   * The duplicate that stops the loop reports the list, the requested title,
   * the title found, its similarity, and every title after it.
   */
  lemma HaltReportsRemaining(listName: string, tasks: seq<string>, forceFirst: bool,
                             outs: seq<Option<CreationResult>>)
    requires |outs| <= |tasks| && LastHalts(forceFirst, outs)
    ensures var idx := |outs| - 1;
            var res := outs[idx].value;
            Tally(listName, tasks, forceFirst, outs).duplicate ==
              Some(Pending(listName, tasks[idx], TitleToUse(res, tasks[idx]), res.similarity, tasks[idx + 1..]))
  {
  }

  /**
   * `auto_used` holds at most one entry: only the first title can be forced,
   * and a duplicate at any later position stops the loop instead.
   */
  lemma {:induction false} AutoUsedOnlyFirst(listName: string, tasks: seq<string>, forceFirst: bool,
                                             outs: seq<Option<CreationResult>>)
    requires |outs| <= |tasks|
    ensures var r := Tally(listName, tasks, forceFirst, outs);
            |r.autoUsed| <= 1 &&
            (r.autoUsed != [] ==> forceFirst && r.autoUsed[0].requested == tasks[0])
    decreases |outs|
  {
    if outs != [] {
      var i := |outs| - 1;
      AutoUsedOnlyFirst(listName, tasks, forceFirst, outs[..i]);
      if i > 0 {
        assert Tally(listName, tasks, forceFirst, outs).autoUsed == Tally(listName, tasks, forceFirst, outs[..i]).autoUsed;
      } else {
        assert outs[..i] == [];
      }
    }
  }

  /** Every skipped title is a non-empty requested title that `add_task` neither created nor matched. */
  lemma {:induction false} SkippedAreRequested(listName: string, tasks: seq<string>, forceFirst: bool,
                                               outs: seq<Option<CreationResult>>)
    requires |outs| <= |tasks|
    requires forall i :: 0 <= i < |outs| ==> (outs[i].None? <==> tasks[i] == [])
    ensures forall t :: t in Tally(listName, tasks, forceFirst, outs).skipped ==>
              t != [] && exists i :: 0 <= i < |outs| && tasks[i] == t && outs[i].Some? &&
                                     !outs[i].value.created && !outs[i].value.restored &&
                                     !outs[i].value.duplicateDetected
    decreases |outs|
  {
    if outs != [] {
      var i := |outs| - 1;
      var init := outs[..i];
      SkippedAreRequested(listName, tasks, forceFirst, init);
      assert forall k :: 0 <= k < i ==> init[k] == outs[k];
    }
  }
}
