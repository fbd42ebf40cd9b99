# A verified model of a Telegram task-list assistant's core

The assistant keeps per-user to-do lists in one SQLite table of entities
(lists and tasks). It turns a language model's replies into actions on that
table. This project models two parts of it in Dafny and proves what those
parts promise:

* **The entity store (`db.py`).**
  * The `entities` table is a class. It holds the rows in insertion order and
    the next AUTOINCREMENT id.
  * Each operation that changes the table is a method. Its contract states the
    new table and the answer it returns.
  * Each read-only query is a function over the rows.
  * The tokenisers, the Jaccard-index similarity, the near-duplicate scan and
    the fuzzy reference resolver are modelled as well. The resolver tries an
    exact title first, then ranks by token overlap, edit distance, length and
    id, then falls back to a substring test.
  * The task lifecycle is modelled: open, done, deleted, archived with its
    source list, and restored.
* **The reply helpers (`main.py`).**
  * Canonicalising action synonyms.
  * Flattening the replies into one action list.
  * Merging consecutive `mark_done` actions into batches.
  * Adding a batch of titles and stopping at the first duplicate the user must
    confirm.
  * The in-memory per-user context with its trimmed history.
  * Three small reply helpers: verb-ending detection, the completion summary
    line and the task emoji.

Modelling choices:

* **Row order.** Rows are a sequence in insertion order. `created_at` has
  one-second resolution and some queries have no `ORDER BY`. Both the creation
  order and an unordered scan are modelled as sequence order, with ties broken
  by id.
* **Lower-casing.**
  * Python's `str.lower` is a character map over ASCII and the basic Cyrillic
    block.
  * SQLite's `LOWER()` and `LIKE` fold ASCII only.
* **Scores.** Similarity scores are exact `real` ratios of set sizes.
* **Edit distance.** `Levenshtein.distance` is the textbook Levenshtein
  recurrence.
* **JSON.** JSON values are the `Actions.Value` datatype. A dict is a `map`,
  so key order is not modelled.
* **Title splitting.** `extract_tasks_from_phrase` is a function parameter of
  the collapse.

## Model

| member | source | states |
|---|---|---|
| Tokens.DropStopwords | db.py:127-129 | the result keeps exactly the words that are not stop words, and only words of the input |
| Tokens.Tokenize | db.py:127-129 | the tokens are exactly the maximal `[0-9a-zA-Zа-яА-ЯёЁ]` runs of the lower-cased text that are not token stop words: each token is such a run, and each such run is a token |
| Tokens.DropStopwordsAppend | db.py:129 | dropping stop words distributes over concatenation |
| Tokens.TokenizeSplit | db.py:127-129 | a non-word character splits the text: the tokens of `x + c + y` are those of `x` followed by those of `y` |
| Tokens.TokenizeWord | db.py:127-129 | a text made only of word characters is one token, its lower-cased form, unless that is a stop word |
| Tokens.StripFirstSuffix | db.py:134-138 | the result is a prefix of the base; when a suffix was removed, at least four characters remain |
| Tokens.NormalizeSemanticToken | db.py:132-141 | the result is a prefix of the replaced token, at least min(4, its length) long; a replaced token of at most four characters is returned unchanged |
| Tokens.ReduceSemanticTokens | db.py:147-155 | no emitted token is empty or a semantic stop word, and there are no more tokens than raw ones |
| Tokens.SemanticTokenize | db.py:144-155 | `_semantic_tokenize` never emits an empty token or a member of `_SEMANTIC_STOPWORDS` |
| Tokens.SemanticTokenizeWord | db.py:144-155 | a text made only of word characters yields the single token that its lower-cased form, with `ё` written `е`, reduces to. It yields nothing when that form or its reduction is a semantic stop word, or the reduction is empty |
| Similarity.JaccardBounds | db.py:194-198 | the Jaccard index lies in [0, 1] |
| Similarity.JaccardOneIff | db.py:194-198 | the index is 1 exactly when the sets are equal and non-empty |
| Similarity.JaccardZeroIff | db.py:194-198 | the index is 0 exactly when the sets are disjoint |
| Similarity.SimilarityBounds | db.py:191-205 | `semantic_similarity` lies in [0, 1] |
| Similarity.SimilaritySymmetric | db.py:191-205 | the score does not depend on the order of the two titles |
| Similarity.SimilarityOfEmpty | db.py:195-196 | two titles without semantic tokens score 0 |
| Similarity.SimilarityOneIff | db.py:191-205 | the score is 1 exactly when both titles have the same non-empty token set |
| Similarity.SimilarityZeroIff | db.py:191-205 | the score is 0 exactly when the token sets share nothing |
| Similarity.SimilarityReflexive | db.py:191-205 | a title scores 1 against itself unless it has no semantic token |
| Text.EditDistanceSelf | db.py:11 | a string is at Levenshtein distance 0 from itself |
| Text.EditDistanceZero | db.py:11 | distance 0 implies equal strings |
| Text.EditDistanceSymmetric | db.py:11 | the distance is symmetric |
| Text.EditDistanceBound | db.py:11 | the distance is at most the length of the longer string |
| Text.NormalizeText | db.py:1387-1394 | `normalize_text`: empty for blank input only, trimmed, only single spaces inside; with upper-casing on ASCII and the basic Cyrillic block, as modelled, never longer than the input |
| Text.RunsOfRun | db.py:128 | a non-empty run of characters of the class splits into itself alone |
| Text.ReplaceRunsKeeps | db.py:145 | a text made only of kept characters passes through the `re.sub` of runs of other characters unchanged |
| Text.RunsSplit | db.py:128 | a character outside the class separates runs: the runs of `x + c + y` are those of `x` followed by those of `y` |
| Text.Spo2FromSpaces | db.py:1393 | the `spo2` rewrite keeps every white-space character in place and adds none |
| Text.Spo2Apart | db.py:1393 | two whole-word `spo2` matches are at least four characters apart |
| Text.Spo2FromReaches | db.py:1393 | the left-to-right scan reaches every position that no replaced match straddles |
| Text.Spo2FromAt | db.py:1393 | every whole-word, case-insensitive `spo2` after the scan's start is rewritten to `SPO2` |
| Text.Spo2FromKeeps | db.py:1393 | every character that no whole-word `spo2` covers is copied unchanged |
| Text.NormalizeTextUpperFirst | db.py:1390-1392 | the first character of the result is the upper-cased first character of the stripped input |
| Text.NormalizeTextSpo2 | db.py:1392-1393 | each whole-word `spo2` of the stripped, collapsed, capitalised text is spelt `SPO2` in the result |
| Text.NormalizeTextKeeps | db.py:1390-1393 | every other character of the stripped, collapsed, capitalised text is kept in the result |
| Table.BestAbove | db.py:230-236 | a found duplicate is a candidate row, with that row's id and title, and scores above the threshold |
| Table.BestAboveIsBest | db.py:231-236 | the kept row has the highest score, no earlier candidate reaches it (ties keep the first), and when nothing is kept no candidate clears the threshold |
| Table.ScanBest | db.py:230-236 | the scan loop ends with the best-above-threshold row |
| Table.SemanticDuplicate | db.py:208-239 | a blank title has no duplicate; a found one is a live row of the same owner and kind, under the same parent when one is given |
| Table.SemanticDuplicateIsBest | db.py:208-239 | the duplicate scores strictly above the threshold and is maximal, with ties going to the first scanned; none is found when no candidate clears the threshold |
| Store.EntityStore.FindSemanticDuplicate | db.py:208-239 | `_find_semantic_duplicate` over the current table answers `Table.SemanticDuplicate` and changes nothing |
| Resolver.CleanPattern | db.py:287 | the cleaned pattern holds only word characters and spaces |
| Resolver.EntryLeTotalPreorder | db.py:267-277 | the sort order of the scored tuples is total and transitive |
| Resolver.EntriesSound | db.py:250-267 | every entry of `scored` belongs to a scored candidate and carries its key |
| Resolver.EntriesComplete | db.py:250-267 | every scored candidate has its entry in `scored` |
| Resolver.FallbackChoice | db.py:268-274 | the fallback picks the first candidate whose title and the pattern contain one another |
| Resolver.ScoreChoiceOutcome | db.py:242-279 | `_score_candidates` answers the scored candidate with the least (−overlap, distance, length, id) key, or else, for a non-empty pattern, the first fallback match, or else none |
| Resolver.FirstFallback | db.py:268-274 | the fallback loop finds the first candidate passing the substring test |
| Resolver.ScoreCandidates | db.py:242-279 | the loop that appends to `scored`, then the sort and the head, compute the scorer's choice |
| Resolver.SelectChoiceOutcome | db.py:282-295 | an empty or punctuation-only pattern selects nothing; otherwise the first exact case-insensitive title wins, else the scorer's choice; any answer is one of the candidates |
| Resolver.SelectCandidate | db.py:282-295 | `_select_candidate` computes that choice |
| Resolver.ClosestByDistance | db.py:1343-1346 | `min(..., key=distance)` picks a candidate at the least distance, the first of equal ones |
| Table.WriteKeepsUnique | db.py:390-402 | rewriting a row without a key collision keeps `UNIQUE(user_id, type, title, parent_id)`, under which NULL parents never collide |
| Table.AppendKeepsUnique | db.py:390-402 | inserting a row without a key collision keeps the unique constraint |
| Table.GetListId | db.py:314-328 | `_get_list_id` finds the first live list of the user whose title matches under SQLite `LOWER()`, or reports that there is none |
| Table.FindList | db.py:531-545 | `find_list` finds the first list of that name whether deleted or not, or reports that there is none |
| Table.FindListCoversGetListId | db.py:314-328 | whenever `_get_list_id` finds a list, `find_list` finds that row or an earlier deleted one |
| Table.GetTaskRow | db.py:331-348 | `_get_task_row` finds a live task of the list with that title under `LOWER()`, or reports that there is none |
| Table.ActiveTasks | db.py:351-367 | exactly the list's live tasks whose status is not done (`COALESCE(status,'open')`), in creation order |
| Table.RestorableTasks | db.py:370-388 | exactly the list's deleted, done or archived tasks, in row order |
| Table.CandidatesAt | db.py:759 | the resolver gets one `(id, title)` candidate per row position, in order |
| Table.ListTasks | db.py:740-751 | `get_list_tasks` numbers the active tasks 1..n in creation order; it is empty without a live list of that name |
| Table.AllListsSortedPermutation | db.py:548-563 | `get_all_lists` is sorted by code point and holds exactly the titles of the live lists, each as often as it occurs |
| Table.ParentRow | db.py:1143-1145 | the join row `l.id = e.parent_id`, or none when no row has that id |
| Table.TitlePairs | db.py:1133-1163 | one `(list title, task title)` pair per listed row, in order |
| Table.SearchWith | db.py:1133-1163 | a pattern that is empty after cleaning finds nothing; otherwise the answer is the `(list title, task title)` pairs of exactly the user's live tasks that have a list row, pass the status test and whose title contains the cleaned pattern under `LIKE`, in creation order |
| Table.SearchPositions | db.py:1143-1151 | the rows `search_tasks` selects are in row order, every selected row among them, each with its joined list row |
| Table.AllTasksSortedPermutation | db.py:1269-1289 | `get_all_tasks` is ordered by list title, lists every open task of the user exactly once, and lists the tasks under each list title in creation order (`ORDER BY l.title, e.created_at`) |
| Seqs.SortByStable | db.py:1280 | the insertion sort is stable: items that compare equal to each other keep their relative order |
| Table.AllTasksListsOpenTasks | db.py:1269-1289 | with the intended status test, every open task whose list row exists is listed |
| Table.SearchFindsOpenTasks | db.py:1133-1163 | with the intended status test, every open task whose title contains the cleaned pattern is found |
| Table.AsWrittenSkipsStatusless | db.py:1147 | as written, a task without a status key is never listed or found |
| Table.NewTaskExampleLookups | db.py:314-328 | in the example table, the list and the join row are found |
| Table.NewTaskExampleListed | db.py:740-751 | in the example table, `get_list_tasks` shows the new task as number 1 |
| Table.AllTasksAsWrittenHidesNewTask | db.py:1279 | in the example table, `get_all_tasks` as written returns nothing, and with the intended filter it returns the task |
| Table.Limit | db.py:1056-1108 | SQLite `LIMIT n` keeps the first n rows, and a negative n means no limit |
| Table.Reverse | db.py:1056-1108 | `ORDER BY created_at DESC` is the reversed row order |
| Table.ParentList | db.py:1076 | the join in `get_completed_tasks` reaches a list row with the parent's id, and is NULL exactly when no list row has that id |
| Table.CompletedLabel | db.py:1059-1100 | the label is never empty. A task that is archived, or whose list row is missing or deleted, is shown under "Архив • source": the source is its `archived_from`, else its list's title. It is shown under "Архив" alone when there is no source. Any other task is shown under its list's title, or under "Архив" when that title is empty |
| Table.Newest | db.py:1084-1085 | `ORDER BY created_at DESC LIMIT n`: the selected rows, strictly newest first; a selected row is left out only when n rows are listed and all of them are newer |
| Table.NewestOfNone | db.py:1084-1085 | where no row is selected, nothing is listed |
| Table.CompletedTasks | db.py:1056-1108 | `get_completed_tasks` lists the user's live done tasks newest first, each with its display label and title, and at most `limit` of them when the limit is non-negative |
| Table.CompletedTasksListsAll | db.py:1056-1108 | without a limit, every live done task of the user is listed under its display label |
| Table.ParentTitle | db.py:1117 | the `LEFT JOIN` of `get_deleted_tasks` gives the title of a row with the parent's id, and NULL exactly when there is none |
| Table.DeletedTasksWith | db.py:1111-1131 | `get_deleted_tasks` lists the selected tasks (the user's tasks flagged deleted) newest first, each with its parent's title, and at most `limit` of them when the limit is non-negative |
| Table.DeletedTasksListsAll | db.py:1111-1131 | without a limit, every selected task is listed with its parent's title |
| Table.SuggestNewList | db.py:898-924 | `_suggest_new_list_for_restore` gives the suggestion exactly when an archived task of that title came from that list or from none |
| Store.SetMeta | db.py:776-779 | an `UPDATE ... SET meta` changes that row's meta and no other row |
| Store.MarkDoneLeavesActive | db.py:773-779 | a task marked done leaves the active tasks and becomes restorable |
| Store.DeleteLeavesActive | db.py:887-893 | a deleted task leaves the active tasks and becomes restorable |
| Store.RestoreReturnsToActive | db.py:958-982 | a restored task is active again and no longer restorable |
| Store.RestoreAlwaysChanges | db.py:958-976 | restoring a restorable task always changes its meta, so the "nothing changed" answer never occurs |
| Store.RestoreUndoesDelete | db.py:958-982 | restoring undoes the deletion of an open task that was never archived |
| Store.RestoreUndoesMarkDone | db.py:958-982 | restoring undoes marking done a task created without a status |
| Store.MetaChangeKeepsInvariant | db.py:390-402 | changing only meta keeps the table invariant: ids below the counter, ids increasing, lists at the top level, unique keys |
| Store.WriteKeepsInvariant | db.py:390-402 | rewriting a row's title or parent without a key collision keeps the invariant |
| Store.InsertKeepsInvariant | db.py:390-402 | inserting a row with the next id and no key collision keeps the invariant |
| Store.Chosen | db.py:763-772 | the resolver's answer maps back to a row position the candidates came from |
| Store.FuzzyChoice | db.py:811 | the fuzzy scorer answers a candidate position or none |
| Store.FuzzyCandidate | db.py:811 | runs the scorer on the tokens of the pattern and its cleaned form |
| Store.NearestWithin | db.py:1343-1350 | `delete_task_fuzzy`'s choice is the nearest title, and only if it is within half the pattern's length |
| Store.PickByTitle | db.py:758-763 | `_select_candidate` over the rows at the given positions |
| Store.PickByPattern | db.py:804-811 | `_score_candidates` over the rows at the given positions |
| Store.MarkDoneTarget | db.py:753-771 | the task `mark_task_done` marks is an active task of the user's live list of that name |
| Store.MarkDoneFuzzyTarget | db.py:787-814 | an empty or punctuation-only pattern marks nothing; otherwise the chosen task is an active task of the live list |
| Store.DeleteTaskTarget | db.py:874-886 | the task `delete_task` deletes is a live, not-done task of the live list with that title under `LOWER()` |
| Store.DeleteFuzzyTarget | db.py:1324-1350 | an empty or punctuation-only pattern deletes nothing; otherwise the chosen task is an active task of the live list |
| Store.IndexTarget | db.py:706-738 | an index is addressable only within 1..n of `get_list_tasks`, and names the task numbered so |
| Store.RestoreTarget | db.py:943-956 | the task `restore_task` restores is a restorable task of the live list |
| Store.RestoreFuzzyTarget | db.py:988-1054 | an empty or punctuation-only pattern restores nothing; otherwise the chosen task is restorable in the live list |
| Store.ListToDelete | db.py:831-838 | the row `delete_list` acts on is the first list of the user with exactly that title, whether deleted or not; with none, there is no row |
| Store.LiveListToDelete | db.py:831-838 | the evidently intended target is the first live list of the user with exactly that title |
| Store.DeleteListPicksStaleRow | db.py:831-838 | with a deleted "Дом" ahead of a live "Дом", `delete_list` picks the deleted row, and the live list is still found afterwards |
| Store.LiveListDeletedIsGone | db.py:829-872 | deleting the first live list with that title leaves it not live. Unless another live list has the name under `LOWER()`, `_get_list_id` finds no list of that name |
| Store.DeleteLiveListSkipsStaleRow | db.py:831-838 | on the same table the intended target is the live "Дом", and no list "Дом" is found after deleting it |
| Store.ListDeleted | db.py:845-867 | the table after `delete_list` keeps its length; what it changes is stated by `Store.DeleteListArchivesTasks` |
| Store.DeleteListArchivesTasks | db.py:829-872 | after `delete_list` the list row only gains the deleted flag and is no longer found as a live list. Each task of it keeps its title, parent and status, loses the deleted flag, is archived with `archived_from` set to the list's name (for a non-empty name) and is restorable, and `_suggest_new_list_for_restore` offers a new list for it. Every other row is unchanged. When no other live list has that name under `LOWER()`, `_get_list_id` finds none afterwards, so `restore_task` into that name answers the suggestion |
| Store.DeletedListHidesOpenTask | db.py:858-866 | in the example table, the open task of a deleted list is in neither `get_completed_tasks` nor `get_deleted_tasks` |
| Store.DeletedListTasksStayVisible | db.py:858-866 | after `delete_list` a done task of the list is among the completed tasks under "Архив • list name", and any other task is among the removed tasks |
| Store.RenamedListIsFound | db.py:512-528 | after renaming to a name no live list has, `_get_list_id` finds the list under the new name |
| Store.CreatedTaskNumberedLast | db.py:662-669 | a task `add_task` inserts is numbered last by `get_list_tasks` |
| Store.CreatedTaskStatus | db.py:664 | an inserted task has no status, which the intended filter treats as open and the filter as written drops |
| Store.EntityStore.constructor | db.py:390-402 | an empty table whose first id is 1 |
| Store.EntityStore.CreateList | db.py:438-510 | a blank name changes nothing; a near-duplicate that is not forced is reported, with `auto_use` iff the score is ≥ 0.85, and changes nothing; otherwise exactly one list with the stripped name is added and `created` is set |
| Store.EntityStore.RenameList | db.py:512-528 | only a live list is renamed, and only to a name no live list has; otherwise nothing changes and the answer is 0 |
| Store.EntityStore.AddTask | db.py:565-678 | a missing parent gives `missing_parent` and no change; a done task with that title is reopened (`restored`); an open one is a duplicate with similarity 1.0 and `auto_use`; a non-forced near-duplicate is reported; otherwise the title is inserted, or a key collision returns a bare result |
| Store.EntityStore.UpdateTask | db.py:680-703 | answers 1 exactly when the live task exists, no live task has the new title and the key is free; then only that row's title changes; otherwise it answers 0 and nothing changes |
| Store.EntityStore.UpdateTaskByIndex | db.py:706-738 | answers 0 or 1. An index outside 1..n answers (0, None) and changes nothing. Otherwise only the numbered task is retitled, under the same conditions as `update_task` |
| Store.EntityStore.MarkDoneAt | db.py:773-779 | sets status done and removes the deleted flag on that row only |
| Store.EntityStore.MarkTaskDone | db.py:753-784 | no target: 0 and no change; otherwise exactly the chosen active task is marked done |
| Store.EntityStore.MarkTaskDoneFuzzy | db.py:787-827 | as `mark_task_done` through the fuzzy scorer, answering the chosen title |
| Store.EntityStore.DeleteList | db.py:829-872 | the first list of the user with exactly that title, deleted or not, is deleted and its tasks archived, answering 1; with none, 0 and no change |
| Store.EntityStore.DeleteAt | db.py:887-893 | sets the deleted flag on that row only |
| Store.EntityStore.DeleteTask | db.py:874-896 | only a live, not-done task of the live list with that title under `LOWER()` is deleted, answering 1; otherwise 0 and no change, which covers the done-task check |
| Store.EntityStore.DeleteTaskFuzzy | db.py:1324-1361 | deletes the nearest active task when within half the pattern's length, answering its title |
| Store.EntityStore.DeleteTaskByIndex | db.py:1364-1385 | an index outside 1..n answers (0, None); otherwise only the numbered task is deleted |
| Store.EntityStore.RestoreAt | db.py:958-982 | clears deleted, archived, archived_from and a done status on that row only |
| Store.EntityStore.RestoreTask | db.py:927-985 | without the live list it only answers the suggestion and changes nothing; otherwise the chosen restorable task is restored |
| Store.EntityStore.RestoreTaskFuzzy | db.py:988-1054 | as `restore_task` through the fuzzy scorer |
| Store.EntityStore.MoveEntity | db.py:1219-1267 | answers 1 exactly when both lists are live, the task is live in the source list and re-parenting it keeps the unique key; then only its parent changes; otherwise it answers 0 and nothing changes |
| Actions.Canonicalize | main.py:528-543 | a copy that only touches `action` and `entity_type`. A synonym action becomes its canonical action, and then a falsy `entity_type` becomes "task". Any other string action is lower-cased. A task-synonym `entity_type` becomes "task", and any other truthy one is kept |
| Actions.SynonymTargets | main.py:494-527 | every synonym maps to a canonical action, with "task" as its entity type |
| Actions.SynonymTargetsAreCanonical | main.py:494-527 | the canonical actions are lower-case and are not synonyms themselves |
| Actions.CanonicalizeIdempotent | main.py:528-543 | canonicalising twice is canonicalising once |
| Actions.SayActions | main.py:744-750 | a reply adds one `say` action exactly when its `ui_text` is a non-blank string |
| Actions.CanonicalizeMembers | main.py:741-743 | the inner loop canonicalises the dict members of an `actions` list, in order |
| Actions.NormalizeActionPayloads | main.py:735-754 | the loop computes the flattened, canonicalised action list |
| Actions.InnerActionsAreDictMembers | main.py:741-743 | an `actions` list contributes the canonical forms of exactly its dict members, in their order |
| Actions.NormalizeAppend | main.py:735-754 | flattening distributes over concatenation of the replies |
| Actions.NonDictIsDropped | main.py:739-753 | a payload that is not a dict contributes nothing |
| Actions.SayIsCanonical | main.py:746-750 | the `say` action is already canonical |
| Actions.NormalizedAreCanonical | main.py:735-754 | every flattened action is in canonical form |
| Collapse.CleanTaskTidy | main.py:801 | a non-blank cleaned title has no white space at either end and only single spaces inside |
| Collapse.AddTasks | main.py:799-808 | the title loop adds each cleaned, non-blank title whose lower-case form is not yet present |
| Collapse.MergeTasksClean | main.py:799-808 | adding titles keeps them tidy and distinct up to case, and keeps the earlier titles first |
| Collapse.KeysOfMerge | main.py:804-807 | the `_seen` set afterwards is the old one plus the lower-case form of every non-blank cleaned title |
| Collapse.MergeTasksAppend | main.py:799-808 | adding two groups of titles one after the other is adding them at once, with de-duplication across the groups |
| Collapse.MergeMeta | main.py:809-815 | `fuzzy` becomes the truth of either side, and any other key keeps the value the buffer already had |
| Collapse.MergedMetaStep | main.py:809-815 | one merge: `fuzzy` is true iff either side's is, the keys are the union, and existing values stay |
| Collapse.MergeMetaInto | main.py:811-815 | the `meta.items()` loop computes the merged meta, whatever order it visits the keys in |
| Collapse.CollectStrings | main.py:780-783 | keeps the string members of the `tasks` list, in order |
| Collapse.CollectTasks | main.py:779-790 | the listed strings, then the extracted pieces of a non-blank title, or the whole title when it splits into nothing |
| Collapse.CollapseStep | main.py:775-836 | one loop pass: pass the action through after a flush, merge it into the buffer, or start a new buffer |
| Collapse.CollapseMarkDoneActions | main.py:755-838 | the method computes the collapse of the whole action list |
| Collapse.BufferActionIsMarkDone | main.py:760-773 | a flushed buffer is a `mark_done` action without `_seen` |
| Collapse.CollapseKeepsOthers | main.py:774-778 | every action other than `mark_done` comes out unchanged and in its original relative order |
| Collapse.BatchOfTidyBuffer | main.py:760-773 | a flushed buffer of tidy titles is a batch: `mark_done`, no `_seen`, tidy titles distinct up to case |
| Collapse.CollapseOutputs | main.py:755-838 | every output action is an input action or such a batch, so no output carries `_seen` |
| Collapse.RunMerges | main.py:795-836 | consecutive `mark_done` actions on the same list and entity type collapse into one batch holding the cleaned titles of the whole run, case-insensitive duplicates removed, first occurrence kept |
| Collapse.RunMergesMeta | main.py:809-836 | a run's batch carries the first action's meta merged with each later one |
| Collapse.RunMetaOfKeys | main.py:809-815 | merging the metas of a run one after another: `fuzzy` is true iff some action's is, and a key is present iff some action's meta has it |
| Collapse.RunMetaOfFirstValue | main.py:811-815 | in that merge any other key keeps the value of the first action whose meta has it |
| Collapse.RunMeta | main.py:809-815 | in a run's merged meta `fuzzy` is true iff some action's is, and a key is present iff some action's meta has it |
| Collapse.RunMetaFirstValue | main.py:811-815 | any other meta key keeps the value of the first action that has it |
| Additions.ProcessTaskAdditions | main.py:978-1029 | the loop visits titles in order and never passes an empty one to `add_task`. It forces only position 0, and only when `force_first` is set. It stops right after the first duplicate that was not forced, and otherwise visits every title |
| Additions.AddOne | main.py:997-1028 | one `add_task` call and the bucket its result calls for. The result reports a missing parent exactly when the user has no list of that name, deleted or not. When it reports a created task, one row titled with the requested title is appended and every other row is kept; otherwise the table keeps its length |
| Additions.EmptyBatch | main.py:994-995 | no titles, no additions |
| Additions.TallyPartition | main.py:1015-1028 | each title passed to `add_task` lands in exactly one of `added`, `auto_used` or `skipped`, except the one that stops the loop; a pending duplicate is reported iff the last visited title stopped the loop |
| Additions.HaltReportsRemaining | main.py:1008-1016 | the pending duplicate names the list, the requested and existing titles, the similarity, and `remaining = tasks[idx+1:]` |
| Additions.AutoUsedOnlyFirst | main.py:999-1026 | `auto_used` holds at most one entry, and only for the first title with `force_first` set |
| Additions.SkippedAreRequested | main.py:1027-1028 | every skipped title is a non-empty requested title that was neither created, restored nor a duplicate |
| Session.LastN | main.py:304 | `value[-10:]` is the suffix of length min(10, n) |
| Session.SessionStore.constructor | main.py:291-308 | no user has a context yet |
| Session.SessionStore.GetCtx | main.py:309-320 | the stored value of the key; a user without a context reads the default one, and a missing key reads `default` |
| Session.SessionStore.SetCtx | main.py:291-308 | each given key is overwritten by its value (a `history` list trimmed), `get_ctx` then returns it, other keys keep their values, and other users are untouched |
| Session.ApplyCtxLast | main.py:301-306 | the last keyword argument of a name decides what is stored under it |
| Session.ApplyCtxOther | main.py:301-306 | a key no keyword argument names keeps its presence and value |
| Session.HistoryTrimmed | main.py:302-304 | a stored history has at most 10 entries and no repeats. It keeps their order, holds only entries of the last 10 given, and holds every one of those |
| Session.HistoryKeepsFirst | main.py:303-304 | each stored history entry sits at its first occurrence among the last 10 |
| Replies.KeepVerbChars | main.py:615 | keeps only characters of `[а-яё-]` and leaves a string already of that class unchanged |
| Replies.LooksLikeVerbToken | main.py:614-623 | false when the cleaned token is shorter than 3. From 4 characters on, true iff it ends with a listed suffix. At exactly 3 characters, true iff it ends with a suffix outside `ай яй ей уй ри ни` |
| Replies.FormatCompletionSummary | main.py:727-734 | the summary is empty exactly when there are no titles |
| Replies.SummaryGeneralForm | main.py:732-734 | the two-title case agrees with the general rule: the first titles joined by commas, then "и" and the last title |
| Replies.SummaryNamesEach | main.py:727-734 | the summary contains every title it is given |
| Replies.GetEmojiForTask | main.py:236-244 | the emoji of the first `TASK_EMOJI_MAP` keyword contained in the lower-cased title; the default emoji exactly when there is no title or no keyword matches |

## Left out

- I/O is not modelled: the SQLite connection, the DDL bootstrap, logging and the debug trace (db.py:13-42, 404-415).
- The `sqlite3.Error` handlers are left out except where a constraint violation can occur. Those are the unique key on `add_task`, `update_task`, `update_task_by_index` and `move_entity`, which answer 0 or a bare result. Other database errors are not modelled.
- The `IntegrityError` branch of `create_list` is not modelled. Lists have a NULL parent, and SQLite never reports NULL parents as conflicting, so the branch cannot be reached.
- `add_task` pops the deleted flag of the task it finds. That branch cannot change anything, because `_get_task_row` only returns live tasks.
- `created_at` is not a field. Creation order is row order, and `completed_at` is never written by the operations modelled, so `get_completed_tasks` orders by creation.
- Table.CompletedTasks: a task counts as done by `status = 'done'` only. The legacy `$.done = true` key (db.py:1081) is not a field of the meta record.
- Text.NormalizeText: the `\b` of the `spo2` rewrite uses `IsRegexWordChar` (ASCII letters and digits, `_` and the basic Cyrillic block) in place of Python's Unicode `\w`. So on "éspo2" Python keeps the word ("Éspo2") while the model rewrites it ("éSPO2"). `str.upper` is modelled on ASCII and the basic Cyrillic block only. Python's `str.upper` can lengthen a string ('ß' becomes "SS"), so the length bound holds only for the modelled characters. The `IGNORECASE` folding of characters such as 'ſ' to 's' is not modelled.
- Store.EntityStore.MoveEntity: follows the code, which does not create a missing target list, and ignores the entity type as the code does.
- `fetch_task`, `fetch_list_by_task`, `_get_or_create_list` and the user-profile functions (db.py:1165-1216, 1291-1322) are outside the modelled core. The profile upsert stores an opaque blob.
- `_load_meta`/`_dump_meta` are not modelled. Meta is a record of the four flags the store reads and writes; other JSON keys in a row's meta are not carried.
- `extract_tasks_from_phrase` and the other regular-expression splitters of main.py are not part of this model. The collapse takes the splitter as a parameter.
- Collapse.CollapseMarkDoneActions: works on values. Python's buffer shares the first action's `meta` dict, so merging later metas also changes that input dict. The model does not capture this aliasing.
- Collapse.Joins: compares `list` and `entity_type` as JSON values. Python's `1 == True` and `1 == 1.0` equalities are not modelled.
- Additions.AddOne: states only the missing-parent case, the appended row of a created task and the unchanged length otherwise. The reopened row, the duplicate results and the key collision of `Store.EntityStore.AddTask`'s contract are not restated, because that full case analysis in the loop context of `Additions.ProcessTaskAdditions` is too costly for the solver.
- Additions.ProcessTaskAdditions: the `add_task` result of each visited title is related to the store only through `Additions.AddOne`'s contract at that call. The method's ensures leaves those results unconstrained. A `tasks` argument of `None` is modelled as the empty list.
- Session.SessionStore.SetCtx: keyword arguments are a sequence of pairs, so a repeated name (impossible in Python) is allowed; the last one wins. History entries are compared as JSON values. Python would raise on unhashable entries and would treat `1`, `1.0` and `True` as one entry.
- The Telegram handlers, the OpenAI calls, speech recognition, the prompt text and the random accents are I/O, foreign services or presentation, and are not modelled.
- Floating-point scores are exact reals, so rounding at the 0.75 and 0.85 thresholds is not modelled.

## Findings

| source | as written | input that shows it | evidently intended | confidence | as-written member | corrected member |
|---|---|---|---|---|---|---|
| db.py:1279 | `get_all_tasks` filters on `json_extract(meta,'$.status') != 'done'`. For a task without a status key that comparison is NULL, so the task is dropped | A user's list "Дом" with a task "молоко" just created by `add_task`, which has no meta: `get_all_tasks` returns nothing | Open tasks are listed, as `_list_active_tasks` does with `COALESCE(status, 'open')` | not executed | Table.AllTasksAsWrittenHidesNewTask | Table.AllTasksListsOpenTasks |
| db.py:1147 | `search_tasks` uses the same comparison, so no task without a status key is ever found | The same task searched for with the pattern "молоко" | Open tasks matching the pattern are found | not executed | Table.AsWrittenSkipsStatusless | Table.SearchFindsOpenTasks |
| db.py:858-866 | `delete_list` archives the list's open tasks without marking them done or deleted. `get_completed_tasks` lists only done tasks, and `get_deleted_tasks` lists only deleted ones, so an archived open task is in neither history view | The list "Дом" with the open task "молоко", deleted: both views are empty | Every task of a deleted list stays in a history view. Done tasks appear as completed under "Архив • Дом", and the others appear among the removed tasks | not executed | Store.DeletedListHidesOpenTask | Store.DeletedListTasksStayVisible |
| db.py:831-838 | `delete_list` looks the list up by user, type and exact title with `LIMIT 1` and no deleted filter. An earlier deleted list with that title is picked again: it is re-deleted, 1 is answered, and the live list stays | A user with a deleted list "Дом" (id 1) and a live list "Дом" (id 2) deletes "Дом": list 2 is still found by `_get_list_id` | The live list with that title is deleted | not executed | Store.DeleteListPicksStaleRow | Store.DeleteLiveListSkipsStaleRow |
