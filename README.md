# To-do list commands and undo history, in Dafny

This project models the command layer of a desktop to-do list. Tasks live in four category lists: events (`e`), deadlines (`d`), floating tasks (`f`) and completed tasks (`c`). A `TaskIndex` addresses a task by category letter and number. The modelled core is:

- **The undo history** (`Undo`). Every undoable command shares two lists: to-do list snapshots and result messages. They are capped at `UNDO_HISTORY_SIZE` (3). A full history loses its entry at position `ITEM_TO_BE_REMOVED_FROM_HISTORY` (0) before the new entry is appended. The static lists become one `History` object that every command's `Execute` receives.
- **`AddCommand`** (`Add`).
  - The constructor resolves the optional fields. The end time comes from `endtime` or `deadline`, exactly one of them. The start/end duration check runs only when both times are present.
  - `execute` snapshots the list, adds the task, pushes one history entry and records the selection.
- **`EditCommand`** (`Edit`).
  - The field merge of `createEditedTask` and `isAnyFieldEdited`.
  - The multi-index `execute` loop, which is not atomic.
  - The refilled index list and the history push.
- **`CompleteCommand`** (`Complete`).
  - An empty index list falls back to the model's selection.
  - Every index is resolved before anything is completed.
  - Tasks are completed in order, and the message is built in that order.
  - The new selection is 1-based in the completed list.
- **`StringUtil`** (`StringUtil`): `containsWordIgnoreCase` (a whole-word, case-insensitive match) and `isUnsignedInteger`.
- **`Time.isValidTime`** (`Time`): a whole match of `.+`, meaning the text is non-empty and on one line.

The Model, ToDoList, Task and TaskIndex classes are not part of this model. They are represented in `Tasks` and `ToDo`:

- **Model** is a class with one `seq<Task>` per category and a `selectedIndexes` sequence.
- **A snapshot** is a `ToDoList` value.
- **`getTaskChar`, `toString` and `getTitleFormattedString`** are uninterpreted functions held by the model (`TaskMethods`).
- **`addTask`, `updateTask` and `completeTask`** get the simplest semantics the commands rely on:
  - add appends;
  - update replaces in place, or moves the task to its new category;
  - complete moves the task to the end of the completed list;
  - a duplicate is an equal task already in the target category.

Each command's `Execute` is proved against specification functions of the to-do list value: `AddTo`, `EditFrom`, `ResolveFrom`, `CompleteAll` and `Pushed`. The properties the source promises are proved about those functions as lemmas:

- the history keeps the newest three entries and its two lists stay aligned;
- an edit run over `a + b` is a run over `a`, then one over `b`;
- a rejected index leaves the model untouched;
- the selection Complete records reads back as exactly the tasks it completed.

Add and Edit record `indexOf` with no `+ 1`, while the `execute` of Complete and of Edit read task numbers as 1-based (`getTaskNumber() - 1`). Two lemmas state what this does:

- `CommandSequences.AddThenDoneMissesAddedTask`: Add stores its index in the model's selection, and a `done` without indexes that follows falls back to that selection. It resolves the task before the one just added, or throws when the list was empty.
- `Edit.ReeditMissesSelectedTask`: Edit refills its own index list and posts it, but does not store it in the model. Read back by `execute` as 1-based, one of those 0-based indexes addresses the task before the edited one, or throws when that task is first in its list.

Edit's success message is the template `"Edited Task: %1$s"`, returned with the placeholder unfilled, as in the source.

## Model

| member | source | states |
|---|---|---|
| Undo.Pushed | src/main/java/todolist/logic/commands/AddCommand.java:139-147 | a push onto a full list drops the entry at position 0 and appends; otherwise it appends. The new entry is last, and the length grows by one up to the cap of 3. From a list of at most 3 the result is the newest 3 entries of the old list plus the new one |
| Undo.Newest | src/main/java/todolist/logic/commands/UndoableCommand.java:13-14 | the newest `min(n, UNDO_HISTORY_SIZE)` entries of a list, oldest first |
| Undo.PushAllKeepsNewest | src/main/java/todolist/logic/commands/AddCommand.java:133-148 | however many pushes follow, a history that starts at most 3 long holds the newest 3 entries of everything ever pushed, oldest first |
| Undo.PushedKeepsEntriesAligned | src/main/java/todolist/logic/commands/UndoableCommand.java:16-17 | pushing onto the two parallel lists keeps them the same length, and equals pushing one (snapshot, result) pair onto the zipped list |
| Undo.History.constructor | src/main/java/todolist/logic/commands/UndoableCommand.java:16-17 | before `resetLists` or any push, the shared lists are unset and hold no entry |
| Undo.History.ResetLists | src/main/java/todolist/logic/commands/UndoableCommand.java:21-24 | both lists become empty, and so the same length |
| Undo.History.Push | src/main/java/todolist/logic/commands/CompleteCommand.java:98-113 | updateUndoLists creates the lists if they are unset, then pushes the snapshot and the result. It keeps the invariant: both lists have the same length, at most 3. The entries are the old entries with (snapshot, result) pushed |
| Tasks.IndexOf | src/main/java/todolist/logic/commands/AddCommand.java:122 | List.indexOf is -1 exactly when the task is absent. Otherwise it is the first position holding the task |
| Tasks.IndexOfAppended | src/main/java/todolist/logic/commands/AddCommand.java:120-122 | a task appended to a list that did not hold it is found at the old length |
| Tasks.RemoveFirst | src/main/java/todolist/logic/commands/CompleteCommand.java:73 | removing a task removes one occurrence of it, as a multiset, and keeps every other task present |
| Tasks.ReplaceFirst | src/main/java/todolist/logic/commands/EditCommand.java:80 | replacing keeps the length and changes positions only to the new task. The new task is present if the old one was; nothing changes if the old one was absent |
| Tasks.ReplaceFirstAtIndex | src/main/java/todolist/logic/commands/EditCommand.java:80 | the first position holding the old task, and only that position, now holds the new task |
| ToDo.AddTo | src/main/java/todolist/logic/commands/AddCommand.java:116 | addTask puts the task into its category list, adding exactly one occurrence. No other list changes, and every task stays in the list of its own category |
| ToDo.Update | src/main/java/todolist/logic/commands/EditCommand.java:79-83 | updateTask fails exactly when the edited task is a different task already in its category. On success the edited task is in its category list, no list other than the old and the new category changes, and tasks stay in their own category |
| ToDo.UpdateReplacesTarget | src/main/java/todolist/logic/commands/EditCommand.java:79-83 | a successful update within one category puts the edited task at the target's position and keeps every other position. Across categories the target leaves its old list once, and the edited task joins the end of the new one |
| ToDo.CompleteOne | src/main/java/todolist/logic/commands/CompleteCommand.java:73 | completeTask moves a pending task to the end of the completed list, removing one occurrence from its list. It leaves a task that is not pending alone, and every other task present where it was |
| ToDo.ZeroBasedIndex | src/main/java/todolist/logic/commands/EditCommand.java:90-93 | the recorded index is the task's category letter with its `indexOf` position. The position is 0-based, non-negative exactly when the task is in that list, and points at the task |
| ToDo.Model.AddTask | src/main/java/todolist/logic/commands/AddCommand.java:116 | the model adds the task exactly when it is not a duplicate, leaves the list alone otherwise, and keeps the selection |
| ToDo.Model.UpdateTask | src/main/java/todolist/logic/commands/EditCommand.java:80 | the model's lists become the result of `Update`, or stay as they are when it fails; the selection is kept |
| ToDo.Model.CompleteTask | src/main/java/todolist/logic/commands/CompleteCommand.java:73 | the model's lists become the result of `CompleteOne`; the selection is kept |
| ToDo.Model.UpdateSelectedIndexes | src/main/java/todolist/logic/commands/CompleteCommand.java:88 | the selection is replaced and the lists are untouched |
| Commands.FormatTrailingPlaceholder | src/main/java/todolist/logic/commands/AddCommand.java:117 | String.format of a template whose only `%` starts a trailing `%1$s` is the template's text followed by the argument |
| Commands.FormatKeepsPlainText | src/main/java/todolist/logic/commands/AddCommand.java:117 | a template with no `%` formats to itself, whatever the argument |
| Add.SuccessMessageNamesTask | src/main/java/todolist/logic/commands/AddCommand.java:43 | the success feedback is "New Task added: " followed by the task's text |
| Add.ResolveEndTime | src/main/java/todolist/logic/commands/AddCommand.java:79-85 | the end time is present exactly when one of endtime and deadline is given, and it is the one that was given |
| Add.TagList | src/main/java/todolist/logic/commands/AddCommand.java:59-62 | one tag per tag name, in iteration order |
| Add.NewTask | src/main/java/todolist/logic/commands/AddCommand.java:71-107 | construction fails with MESSAGE_INVALID_DURATION exactly when both times are present and the duration is invalid. Otherwise the task carries each optional field exactly as given, the resolved end time and the tags |
| Add.Create | src/main/java/todolist/logic/commands/AddCommand.java:56-101 | the constructor end to end: the duration failure exactly as for NewTask; otherwise a fresh command whose task has each field, the resolved end time and one tag per name in order |
| Add.AddedTaskSelectedAtOldLength | src/main/java/todolist/logic/commands/AddCommand.java:120-122 | after a successful add, the selected index is the task's category with the old length of its list |
| Add.AddCommand.Execute | src/main/java/todolist/logic/commands/AddCommand.java:111-131 | a duplicate fails with MESSAGE_DUPLICATE_TASK and leaves the list, the selection and the history untouched. Otherwise the task is added and (pre-add snapshot, formatted message) is pushed. The selection becomes the task's 0-based index, and the same message is returned |
| Edit.IsAnyFieldEdited | src/main/java/todolist/logic/commands/EditCommand.java:216-219 | true exactly when the descriptor is not the empty descriptor, meaning one of its seven fields is present |
| Edit.CreateEditedTask | src/main/java/todolist/logic/commands/EditCommand.java:123-185 | every field present in the descriptor takes its value, and every absent field keeps the task's value (title, tags and the five optional fields) |
| Edit.EditedTaskUnique | src/main/java/todolist/logic/commands/EditCommand.java:123-136 | those two field rules determine the edited task completely |
| Edit.EditIdempotent | src/main/java/todolist/logic/commands/EditCommand.java:138-185 | editing twice with the same descriptor is editing once |
| Edit.AnyFieldEditedIffSomeTaskChanges | src/main/java/todolist/logic/commands/EditCommand.java:216-219 | isAnyFieldEdited is false exactly when the descriptor leaves every task unchanged |
| Edit.ChangedWitness | src/main/java/todolist/logic/commands/EditCommand.java:216-219 | for a descriptor with an edited field, there is a task it changes |
| Edit.EditOne | src/main/java/todolist/logic/commands/EditCommand.java:69-84 | one loop turn. A position at or past the list's size fails with the invalid-index message, and a negative one throws. Otherwise the turn fails with MESSAGE_DUPLICATE_TASK exactly when the edited task collides; else the edited task is in its category list |
| Edit.EditFrom | src/main/java/todolist/logic/commands/EditCommand.java:68-85 | the loop either finishes with one edited task per index, appended in order, or stops with a failure. Tasks stay in their own category |
| Edit.EditFromSplit | src/main/java/todolist/logic/commands/EditCommand.java:68-85 | running the loop over `a + b` is running it over `a`, then over `b` from the state reached, unless `a` failed |
| Edit.EarlierEditsStay | src/main/java/todolist/logic/commands/EditCommand.java:68-85 | when a later index fails, the run stops in the state the earlier edits produced, not the starting one |
| Edit.PartialEditExample | src/main/java/todolist/logic/commands/EditCommand.java:72-74 | with one floating task, indexes f1 and f2 edit f1 and then fail on f2; the list keeps the edit |
| Edit.ReeditMissesSelectedTask | src/main/java/todolist/logic/commands/EditCommand.java:92-93 | read back as 1-based, a recorded 0-based index throws for the first task of a list and names another task otherwise |
| Edit.SelectEach | src/main/java/todolist/logic/commands/EditCommand.java:88-94 | the index list is refilled with each edited task's category and `indexOf` in the post-edit list, in order |
| Edit.EditCommand.constructor | src/main/java/todolist/logic/commands/EditCommand.java:56-62 | the command keeps the index list and a copy of the descriptor that agrees field by field |
| Edit.EditCommand.EditEach | src/main/java/todolist/logic/commands/EditCommand.java:66-85 | the loop leaves the model in the state `EditFrom` reaches and reports its failure, or the edited tasks when it finishes |
| Edit.EditCommand.Execute | src/main/java/todolist/logic/commands/EditCommand.java:65-116 | the model ends in the loop's state. A failure is returned with the edits so far kept and the history untouched. Success replaces the index list by the edited tasks' 0-based indexes, pushes (pre-edit snapshot, template), and returns the template unformatted |
| Complete.ResolveFrom | src/main/java/todolist/logic/commands/CompleteCommand.java:59-69 | resolution succeeds exactly when every index is inside its list, and then gives each index's task, in order |
| Complete.ResolveStopsAtFirstOutOfRange | src/main/java/todolist/logic/commands/CompleteCommand.java:59-69 | the first index outside its list decides the failure: the invalid-index message past the end, an IndexOutOfBounds for a negative position |
| Complete.ResolveAllInRange | src/main/java/todolist/logic/commands/CompleteCommand.java:59-69 | when every index is inside its list, resolution gives exactly the indexed tasks |
| Complete.ResolveAsWrittenFrom | src/main/java/todolist/logic/commands/CompleteCommand.java:63-68 | under the written guard, resolution succeeds exactly when every index is inside its list |
| Complete.WrittenStopsAtFirstOutOfRange | src/main/java/todolist/logic/commands/CompleteCommand.java:63-68 | under the written guard, the first index outside its list fails too. A position equal to the size reaches List.get and throws |
| Complete.AsWrittenAgreesOffBoundary | src/main/java/todolist/logic/commands/CompleteCommand.java:63-68 | when no index is exactly one past its list's end, the written and the corrected guard give the same outcome |
| Complete.AsWrittenRejectsSameLists | src/main/java/todolist/logic/commands/CompleteCommand.java:63-68 | both guards reject the same index lists, and agree whenever they succeed |
| Complete.GuardOffByOne | src/main/java/todolist/logic/commands/CompleteCommand.java:63 | `done e2` on a list holding one event throws IndexOutOfBounds as written, instead of giving the invalid-index message |
| Complete.CompleteAll | src/main/java/todolist/logic/commands/CompleteCommand.java:71-75 | completing tasks in order only ever extends the completed list, and keeps every task in its own category |
| Complete.CompleteAllCompletes | src/main/java/todolist/logic/commands/CompleteCommand.java:71-75 | every resolved task that was pending in its list, or already completed, is in the completed list afterwards |
| Complete.TitlesAppend | src/main/java/todolist/logic/commands/CompleteCommand.java:71-76 | the message body of a longer run is the bodies of its parts, in order |
| Complete.CompletedSelection | src/main/java/todolist/logic/commands/CompleteCommand.java:81-84 | one `c` index per task, in order. The number is at least 1 exactly when the task is completed, and then it names that task at number - 1 |
| Complete.ResolvedTasksInPlay | src/main/java/todolist/logic/commands/CompleteCommand.java:59-69 | every resolved task is pending in its own list or already completed |
| Complete.SelectionResolvesToCompleted | src/main/java/todolist/logic/commands/CompleteCommand.java:81-84 | after a successful completion, resolving the recorded selection gives back exactly the completed tasks |
| Complete.SelectionOfCompletedResolves | src/main/java/todolist/logic/commands/CompleteCommand.java:81-84 | the 1-based selection of tasks that are all completed resolves to those tasks |
| CommandSequences.AddThenDoneMissesAddedTask | src/main/java/todolist/logic/commands/CompleteCommand.java:49-50 | `done` with no index right after `add` resolves the task before the added one, or throws when the list was empty |
| Complete.SelectEach | src/main/java/todolist/logic/commands/CompleteCommand.java:81-84 | the selection loop computes `CompletedSelection` of the completed list |
| Complete.CompleteEach | src/main/java/todolist/logic/commands/CompleteCommand.java:71-76 | the completion loop leaves the model at `CompleteAll` of the tasks and keeps the selection; the message body is their titles, in order |
| Complete.CompleteCommand.constructor | src/main/java/todolist/logic/commands/CompleteCommand.java:41-43 | the command keeps the given index list |
| Complete.CompleteCommand.ResolveEach | src/main/java/todolist/logic/commands/CompleteCommand.java:59-69 | the resolution loop returns `ResolveFrom` of the model's list, under the corrected guard, and changes nothing |
| Complete.CompleteCommand.Execute | src/main/java/todolist/logic/commands/CompleteCommand.java:46-92 | an empty index list takes the model's selection; still empty, it fails with MESSAGE_NO_TASK_SELECTED. A rejected index fails and changes nothing. Otherwise the tasks are completed in order and (snapshot, "Completed Task: " + titles) is pushed. The selection becomes the 1-based completed positions, and that message is returned |
| StringUtil.Trim | src/main/java/todolist/commons/util/StringUtil.java:41 | String.trim leaves no character up to U+0020 at either end |
| StringUtil.TrimIsSlice | src/main/java/todolist/commons/util/StringUtil.java:41 | String.trim keeps one slice of the text, and every character it removes around that slice is at most U+0020 |
| StringUtil.Tokens | src/main/java/todolist/commons/util/StringUtil.java:46 | the pieces of a split on `\s+` are non-empty and contain no whitespace |
| StringUtil.TokensKeepNonWhitespace | src/main/java/todolist/commons/util/StringUtil.java:46 | every non-whitespace character lands in a piece: the pieces joined in order are the text without its whitespace |
| StringUtil.ContainsWordIgnoreCase | src/main/java/todolist/commons/util/StringUtil.java:37-52 | requires the trimmed word to be non-empty and a single piece. The result is true exactly when the trimmed word occurs in the sentence, ignoring case, as a whole word bounded by whitespace or the sentence's ends |
| StringUtil.TrimmedSingleWord | src/main/java/todolist/commons/util/StringUtil.java:42-43 | a trimmed, non-empty word splits into one piece exactly when it contains no whitespace |
| StringUtil.SplitMatchesTokens | src/main/java/todolist/commons/util/StringUtil.java:46-50 | the empty leading piece that split produces for a sentence starting with whitespace never matches a word |
| StringUtil.TokensMatchIffWordAt | src/main/java/todolist/commons/util/StringUtil.java:46-50 | some piece equals the word, ignoring case, exactly when the word occurs whole in the sentence |
| StringUtil.PaddingIgnored | src/main/java/todolist/commons/util/StringUtil.java:41 | leading and trailing whitespace on the word changes neither its trimmed form nor the result |
| StringUtil.PlainWordFound | src/main/java/todolist/commons/util/StringUtil.java:37-52 | a plain word found whole at some position makes the search true |
| StringUtil.ContainsWordExampleLower | src/main/java/todolist/commons/util/StringUtil.java:30 | ("ABc def", "abc") is true |
| StringUtil.ContainsWordExampleUpper | src/main/java/todolist/commons/util/StringUtil.java:31 | ("ABc def", "DEF") is true |
| StringUtil.ContainsWordExamplePartial | src/main/java/todolist/commons/util/StringUtil.java:32 | ("ABc def", "AB") is false: a partial word does not match |
| StringUtil.MatchesUnsigned | src/main/java/todolist/commons/util/StringUtil.java:71 | `^0*[1-9]\d*$` matches exactly the texts made of digits with at least one non-zero digit |
| StringUtil.IsUnsignedInteger | src/main/java/todolist/commons/util/StringUtil.java:70-72 | true exactly when the text is non-null, all digits, with a non-zero digit; leading zeros are allowed |
| StringUtil.UnsignedIntegerExamples | src/main/java/todolist/commons/util/StringUtil.java:64-68 | false for null, "", "-1", "0", "+1", " 2 " and "3 0"; true for "1", "007" and "10" |
| Time.IsValidTime | src/main/java/todolist/model/task/Time.java:17-19 | `.+` matches exactly the non-empty texts with no line terminator |
| Time.ValidPrefix | src/main/java/todolist/model/task/Time.java:8 | a non-empty prefix of a valid time text is valid |
| Time.ValidExtends | src/main/java/todolist/model/task/Time.java:8 | appending a character other than a line terminator keeps a text valid |
| Time.ValidConcat | src/main/java/todolist/model/task/Time.java:8 | two non-empty texts joined are valid exactly when both are |
| Time.EmptyInvalid | src/test/java/todolist/model/task/TimeTest.java:17 | the empty text is invalid |
| Time.PrintableValid | src/main/java/todolist/model/task/Time.java:17-19 | a non-empty text of printable ASCII characters is valid, whatever date it means |
| Time.TimeExamples | src/test/java/todolist/model/task/TimeTest.java:20-24 | "March Fifteenth", "20170315", "By end of March", "March 15 2017" and "March 15, 2017" are valid |
| Time.MultiLineInvalid | src/main/java/todolist/model/task/Time.java:8 | a text that runs onto a second line is invalid |

## Left out

- The UI, the event bus and logging are not modelled. These are the `EventsCenter` posts of the selection and the logger calls. Add and Complete post the selection they store in the model. Edit posts its refilled index list and stores nothing in the model's selection.
- `StringUtil.getDetails` and `StringUtil.parseStringToTime` are not modelled. They print stack traces, or call a natural-language date library and the system clock.
- Messages, Model, ModelManager, ToDoList, UniqueTaskList, Task, TaskIndex, Tag and the value-object classes are not part of this model. Their behaviour is represented by the modelling choices described above.
- Add.NewTask: does not model the value-object constructors' own validation (Title, Venue, StartTime, EndTime, UrgencyLevel, Description, Tag), because their source is not part of this model. Only the duration check fails.
- Add.NewTask: `StartTime.isValidDuration` is a parameter, left uninterpreted. It depends on real dates and the clock.
- Add.TagList: the `Set<String>` of tag names is a sequence in its iteration order. Uniqueness of tags is not modelled.
- Edit.EditCommand.Execute: `updateFilteredListToShowAll` is not modelled. Lists are never filtered here, so `getListFromChar` is always the full category list.
- Edit.EditCommand.Execute: the index list is cleared and refilled as one assignment of the list `SelectEach` builds. The refill loop is that helper method. The list's identity, which the source shares with its caller, is not modelled.
- Complete.CompleteCommand.Execute: the fallback copies the selection into the command's own index list. The source fills the list object it was given, which its caller shares; that aliasing is not modelled.
- Complete.CompleteCommand.ResolveEach: its loop uses the corrected guard `size <= position` (see Findings), not the `size < position` of CompleteCommand.java:63. For a position equal to its list's size, it returns the invalid-index failure where the source reaches `lastShownList.get` and throws IndexOutOfBoundsException. `Complete.AsWrittenRejectsSameLists` shows both guards reject the same index lists and agree on every success.
- Complete.CompleteCommand.Execute: resolves with the corrected guard (see Findings). For a position equal to its list's size, the source throws IndexOutOfBoundsException instead of the invalid-index message. Every other outcome, and the final state, is the same.
- The three loops of `CompleteCommand.execute` and the two of `EditCommand.execute` are separate methods (`ResolveEach`, `CompleteEach`, `SelectEach`, `EditEach`), which `Execute` calls in the source's order.
- StringUtil.ContainsWordIgnoreCase: case folding covers the ASCII letters only, not the full Unicode case mapping of `equalsIgnoreCase`. The null checks of its arguments are not modelled: strings here are never null.
- StringUtil.IsUnsignedInteger: Java's null is modelled as `None`.
- The undo command, which pops the history, is not modelled; its source is not part of this model. Only the push side of the history is.
- Task numbers are unbounded integers; `int` overflow of `taskNumber - 1` is not modelled.

## Findings

| source | as written | input that shows it | evidently intended | confidence | as-written member | corrected member |
|---|---|---|---|---|---|---|
| src/main/java/todolist/logic/commands/CompleteCommand.java:63 | the guard `lastShownList.size() < filteredTaskListIndex` lets a 0-based position equal to the size through, and `lastShownList.get` then throws IndexOutOfBoundsException | `done e2` when the event list holds one task | every position at or past the end is rejected with MESSAGE_INVALID_TASK_DISPLAYED_INDEX, like EditCommand's `>=` guard | high (not executed) | Complete.GuardOffByOne | Complete.ResolveFrom |
