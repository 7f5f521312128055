# java-kanban in Dafny

A model of the task tracker in `src/com/yandex/app`. It covers the following parts:

- **Entities:** tasks, epics and subtasks (`model/Task.java`, `model/Epic.java`, `model/Subtask.java`).
- **`InMemoryTaskManager`:**
  - the id counter and the three maps by id;
  - the epic status rule;
  - adds, updates, deletes and views.
- **`InMemoryHistoryManager`:** the view history, capped at ten entries.
- **CSV persistence in `FileBackedTaskManager`:**
  - the field escaper and unescaper;
  - the quote-aware line splitter;
  - `toString` and `fromString` of one row;
  - `save` and `loadFromFile` as functions on lists of lines.

Java objects become immutable datatypes, and every mutator becomes a function returning the new value. The manager is a `Store` holding these fields:

- the `nextId` counter;
- the maps `tasks`, `epics` and `subtasks`;
- the `history`.

Exceptions become `Result` values.

Modules:

- `Wrappers` (wrappers.dfy): `Option` and `Result`.
- `JavaText` (text.dfy): the `String`, `Integer` and `Long` library calls the codec uses (`trim`, `replace`, `isBlank`, `String.valueOf`, `parseInt`, `parseLong`, `String.join`), the range `Duration.ofMinutes` accepts, and the wrap-around of `int` arithmetic. The text calls are modelled on the characters the codec sees.
- `Model` (model.dfy): `Task`, `Epic` and `Subtask`, with:
  - constructors, setters, `equals` and `hashCode`, `clone`;
  - the epic's subtask list;
  - the epic's time window.
- `History` (history.dfy): `InMemoryHistoryManager`.
- `TaskStore` (store.dfy): `InMemoryTaskManager`, with the counter wrapping as a Java `int`. It also defines the store invariant `Valid` and proves that each operation preserves it under stated conditions:
  - the adds, while the counter stays below 2147483647 (past it the counter wraps and ids repeat);
  - `addEpic` and `updateEpic`, when the epic's list names subtasks of that epic;
  - `updateSubtask`, when the subtask keeps its epic (given a new epic id, the source leaves the old epic listing the subtask);
  - `addSubtask`, only with the corrected self-reference check (see ## Findings), and only for a subtask whose supplied id is not already a stored subtask (re-adding a stored subtask lists it twice on its epic).
- `Csv` (csv.dfy): the row codec of `FileBackedTaskManager`.
- `FileStore` (filestore.dfy): `save` and `loadFromFile`, the latter both as written (`LoadAsWritten`) and corrected (`Load`, see ## Findings), and the theorem that loading what `save` wrote gives back the store up to the codec's normal form. That normal form is:
  - titles and descriptions sanitized;
  - epic lists rebuilt from the subtask rows;
  - epic end times dropped.

## Model

| member | source | states |
|---|---|---|
| Model.NewTask | src/com/yandex/app/model/Task.java:20-24 | A new task has id 0 and no time fields, and carries the given title, description and status |
| Model.CopyTask | src/com/yandex/app/model/Task.java:31-36 | The copy constructor gives a task equal in every field to the original |
| Model.SetTitle | src/com/yandex/app/model/Task.java:59-61 | Only the title changes |
| Model.SetDescription | src/com/yandex/app/model/Task.java:63-65 | Only the description changes |
| Model.SetId | src/com/yandex/app/model/Task.java:67-69 | Only the id changes |
| Model.SetStatus | src/com/yandex/app/model/Task.java:71-73 | Only the status changes |
| Model.ItemEquals | src/com/yandex/app/model/Task.java:97-101 | Two entities are equal exactly when their ids are equal, whatever their kinds (`instanceof Task` holds for epics and subtasks) and other fields |
| Model.HashCode | src/com/yandex/app/model/Task.java:109-112 | The hash code is the id, as `Integer.hashCode` returns its argument |
| Model.EqualsIsConsistent | src/com/yandex/app/model/Task.java:97-112 | A consequence of the two: `equals` is reflexive, symmetric and transitive, and equal entities have equal hash codes, as `HashMap` keys need |
| Model.KindOf | src/com/yandex/app/model/Subtask.java:51-54 | `getType` is SUBTASK exactly for subtasks and EPIC exactly for epics; the overrides in Epic.java and Subtask.java take precedence over Task's |
| Model.Clone | src/com/yandex/app/model/Subtask.java:61-64 | A clone is equal to the original and of the same kind, whichever class it is |
| Model.NewSubtask | src/com/yandex/app/model/Subtask.java:18-21 | A new subtask is a new task that also carries the epic id |
| Model.CopySubtask | src/com/yandex/app/model/Subtask.java:28-32 | The copy constructor keeps every field, including the epic id |
| Model.NewEpic | src/com/yandex/app/model/Epic.java:25-27 | A new epic is NEW, with an empty subtask list and no end time |
| Model.CopyEpic | src/com/yandex/app/model/Epic.java:34-41 | The copy constructor keeps the task fields, the subtask list and the end time |
| Model.SubtaskIds | src/com/yandex/app/model/Epic.java:48-50 | `getSubtaskIds` returns the epic's list |
| Model.AddSubtaskId | src/com/yandex/app/model/Epic.java:62-67 | Adding the epic's own id is refused, in both directions of the iff; any other id is appended and nothing else changes |
| Model.RemoveFirstCount | src/com/yandex/app/model/Epic.java:74-76 | `List.remove(Integer)` takes exactly one occurrence of the id out of the list, if it has one |
| Model.RemoveFirstCutsFirst | src/com/yandex/app/model/Epic.java:74-76 | The removed occurrence is the first one; the items before and after it keep their order |
| Model.RemoveSubtaskId | src/com/yandex/app/model/Epic.java:74-76 | Only the list changes, losing the first occurrence of the id |
| Model.ClearSubtasks | src/com/yandex/app/model/Epic.java:82-84 | The list becomes empty; the task fields and end time stay |
| Model.EarliestStart | src/com/yandex/app/model/Epic.java:108-113 | The epic's start is the least subtask start, is one of them, and is absent only when no subtask has a start |
| Model.LatestEnd | src/com/yandex/app/model/Epic.java:116-121 | The epic's end is the greatest subtask end, is one of them, and is absent only when no subtask has an end |
| Model.UpdateEpicTime | src/com/yandex/app/model/Epic.java:92-122 | No subtasks gives duration 0 with no start or end. Otherwise the duration is the sum of the subtask durations, and start and end are the earliest start and the latest end. The other task fields and the list are untouched |
| Model.SumDurationsAppend | src/com/yandex/app/model/Epic.java:101-105 | The summed duration of two lists of subtasks is the sum of their durations |
| Model.SumDurationsMissing | src/com/yandex/app/model/Epic.java:101-105 | A subtask without a duration adds nothing to the epic's duration |
| Model.SumDurationsNonNegative | src/com/yandex/app/model/Epic.java:101-105 | Non-negative subtask durations give a non-negative epic duration |
| Model.EpicWindowCoversSubtasks | src/com/yandex/app/model/Epic.java:92-122 | Each subtask's start and end lie inside the epic's window |
| History.LastViews | src/com/yandex/app/service/InMemoryHistoryManager.java:15 | The history never exceeds ten entries, and a short list is kept whole |
| History.Add | src/com/yandex/app/service/InMemoryHistoryManager.java:24-31 | The viewed entity (cloned) becomes the last entry. When the history is full the oldest entry goes and the rest shift; otherwise the rest stay |
| History.GetHistory | src/com/yandex/app/service/InMemoryHistoryManager.java:36-39 | The copy returned lists the views in order, oldest first |
| History.AddIsLastViews | src/com/yandex/app/service/InMemoryHistoryManager.java:24-31 | One add keeps exactly the last ten views of the history followed by the new one |
| History.AddAllKeepsLastViews | src/com/yandex/app/service/InMemoryHistoryManager.java:24-31 | After any run of views, the history is the last ten of all views in order |
| History.LastViewsAppend | src/com/yandex/app/service/InMemoryHistoryManager.java:24-31 | Truncating early and then appending keeps the same last ten as truncating once at the end |
| History.RemoveCutsFirst | src/com/yandex/app/service/InMemoryHistoryManager.java:44-52 | `remove(id)` deletes the first entry with that id; the entries before and after it keep their order |
| History.RemoveAbsent | src/com/yandex/app/service/InMemoryHistoryManager.java:44-52 | Removing an id the history does not hold changes nothing |
| History.RemoveById | src/com/yandex/app/service/InMemoryHistoryManager.java:44-52 | The source's index loop, which stops at the first match, computes the first-match removal |
| TaskStore.AllocateId | src/com/yandex/app/service/InMemoryTaskManager.java:31-43 | A positive supplied id is kept, otherwise the counter's value is used. Both increments wrap as Java `int`s: below 2147483647 the counter moves past the id used, to at most one above the larger of the two, and never goes back; supplying 2147483647 sends it to -2147483648, and generating 2147483647 sends it to the supplied id plus one |
| TaskStore.Allocations | src/com/yandex/app/service/InMemoryTaskManager.java:39-51 | Over a run of adds, supplied positive ids are kept. While no counter value reaches 2147483647, every id used lies below the final counter, which is at most the largest id seen plus the number of adds, and generated ids increase |
| TaskStore.GeneratedIdsAreNew | src/com/yandex/app/service/InMemoryTaskManager.java:31-33 | Below the wrap, a generated id differs from every id used before it in the run |
| TaskStore.WrappedCounterRepeatsIds | src/com/yandex/app/service/InMemoryTaskManager.java:31-43 | Past the wrap it does not: with ids supplied as 0, 2147483647, 0, 0 the adds use 1, 2147483647, -2147483648 and 1 again |
| TaskStore.GeneratedIdIsFresh | src/com/yandex/app/service/InMemoryTaskManager.java:31-33 | When the counter is above every stored id, a generated id names no stored task, epic or subtask |
| TaskStore.EpicStatusRule | src/com/yandex/app/service/InMemoryTaskManager.java:280-303 | An epic is DONE iff it has subtasks and all are DONE. It is NEW iff every subtask is NEW, including when it has none. Otherwise it is IN_PROGRESS |
| TaskStore.EpicStatusExamples | src/com/yandex/app/service/InMemoryTaskManager.java:276-278 | The three cases of the rule on sample lists |
| TaskStore.ComputeEpicStatus | src/com/yandex/app/service/InMemoryTaskManager.java:280-303 | The source's loop over the subtask list with two flags computes the status rule |
| TaskStore.RefreshStatus | src/com/yandex/app/service/InMemoryTaskManager.java:280-303 | `updateEpicStatus` changes only the epic's status, to the rule applied to its subtasks' statuses |
| TaskStore.EmptyStoreIsValid | src/com/yandex/app/service/InMemoryTaskManager.java:14-21 | A new manager satisfies the store invariant, and its counter starts at 1 |
| TaskStore.AddTask | src/com/yandex/app/service/InMemoryTaskManager.java:39-51 | A copy of the task, carrying the allocated id, goes under that id, and the caller's task gets that id. The counter takes the allocation step's value, moving past the id below the wrap; nothing else changes |
| TaskStore.AddEpic | src/com/yandex/app/service/InMemoryTaskManager.java:57-69 | A copy of the epic, keeping its list and carrying the allocated id, goes under that id. The counter takes the allocation step's value, moving past the id below the wrap; nothing else changes |
| TaskStore.LinkSubtask | src/com/yandex/app/service/InMemoryTaskManager.java:89-96 | After the check: put the copy, then `addSubtaskId` and `updateEpicStatus` on its epic if that exists; the counter is untouched |
| TaskStore.AddSubtask | src/com/yandex/app/service/InMemoryTaskManager.java:76-97 | Corrected (see ## Findings). A subtask naming its own allocated id as its epic is refused with only the counter changed. Otherwise the copy is put under that id; an existing epic refuses the id if it is its own, or appends it and has its status recomputed over the longer list; no other epic changes. The store must let that recomputation, which runs after the put, find every listed subtask |
| TaskStore.AddTaskKeepsValid | src/com/yandex/app/service/InMemoryTaskManager.java:39-51 | `addTask` preserves the store invariant while neither the counter nor the supplied id is 2147483647 |
| TaskStore.CounterWrapOverwrites | src/com/yandex/app/service/InMemoryTaskManager.java:31-51 | Past the wrap it does not: after task 1 and a task supplied with id 2147483647, the counter is negative and lags the stored ids, and two fresh tasks get ids -2147483648 and 1, the second replacing task 1 |
| TaskStore.AddEpicKeepsValid | src/com/yandex/app/service/InMemoryTaskManager.java:57-69 | `addEpic` preserves the invariant below the wrap when the epic's list names subtasks of that epic |
| TaskStore.AddNewEpicKeepsValid | src/com/yandex/app/service/InMemoryTaskManager.java:57-69 | Adding a freshly constructed epic preserves the invariant while the counter is below 2147483647 |
| TaskStore.AddSubtaskKeepsValid | src/com/yandex/app/service/InMemoryTaskManager.java:76-97 | Corrected `addSubtask` (see ## Findings): below the wrap, and when a positive supplied id is not already a stored subtask, it preserves the invariant, and succeeds exactly when the subtask does not name its own allocated id |
| TaskStore.ReaddedSubtaskIsListedTwice | src/com/yandex/app/model/Epic.java:62-67 | Without that condition it fails: re-adding a stored subtask that its epic lists is accepted, the epic lists the id twice, the store is no longer valid, and a later `deleteSubtaskById` of the id leaves the second entry for `updateEpicStatus` to miss |
| TaskStore.AddSubtaskNeverSelfOwned | src/com/yandex/app/service/InMemoryTaskManager.java:85-87 | The corrected check never stores a subtask as its own epic |
| TaskStore.AddSubtaskAsWritten | src/com/yandex/app/service/InMemoryTaskManager.java:76-97 | As written, a subtask is refused with only the counter changed iff its epic id equals the id it was passed with, not the id it gets; otherwise it is put and linked exactly as the corrected add does |
| TaskStore.AsWrittenStoresOwnEpic | src/com/yandex/app/service/InMemoryTaskManager.java:85-87 | As written, a new subtask of epic 1 on an empty manager is stored as subtask 1 of epic 1 |
| TaskStore.AsWrittenRefusesFreshSubtaskOfEpicZero | src/com/yandex/app/service/InMemoryTaskManager.java:85-87 | As written, a new subtask of epic 0 is refused, although it would get id 1 |
| TaskStore.GetTaskById | src/com/yandex/app/service/InMemoryTaskManager.java:127-132 | A found task is appended to the history; an unknown id changes nothing |
| TaskStore.GetEpicById | src/com/yandex/app/service/InMemoryTaskManager.java:138-143 | A found epic is appended to the history; an unknown id changes nothing |
| TaskStore.GetSubtaskById | src/com/yandex/app/service/InMemoryTaskManager.java:149-154 | A found subtask is appended to the history; an unknown id changes nothing |
| TaskStore.ViewsKeepHistoryBounded | src/com/yandex/app/service/InMemoryTaskManager.java:127-154 | Views never push the history past ten entries, and the last entry is the viewed task |
| TaskStore.ViewsKeepValid | src/com/yandex/app/service/InMemoryTaskManager.java:127-154 | Views preserve the store invariant |
| TaskStore.GetSubtasksOfEpic | src/com/yandex/app/service/InMemoryTaskManager.java:255-264 | An unknown epic gives no subtasks. Otherwise there is one entry per listed id, holding that subtask, or null when the id is not stored |
| TaskStore.SubtasksOfEpicAreOwned | src/com/yandex/app/service/InMemoryTaskManager.java:255-264 | In a linked store, every entry is a subtask that names this epic |
| TaskStore.UpdateTask | src/com/yandex/app/service/InMemoryTaskManager.java:160-162 | The task is put under its own id; every other task and everything else is unchanged |
| TaskStore.UpdateEpic | src/com/yandex/app/service/InMemoryTaskManager.java:168-171 | The epic is put under its id with its status recomputed from its list; every other epic and everything else is unchanged |
| TaskStore.UpdateSubtask | src/com/yandex/app/service/InMemoryTaskManager.java:177-183 | The subtask is put under its id, and only its epic's status is recomputed |
| TaskStore.UpdateTaskKeepsValid | src/com/yandex/app/service/InMemoryTaskManager.java:160-162 | Updating a stored task preserves the invariant |
| TaskStore.UpdateEpicKeepsValid | src/com/yandex/app/service/InMemoryTaskManager.java:168-171 | Updating a stored epic whose list names its own subtasks preserves the invariant |
| TaskStore.UpdateSubtaskKeepsValid | src/com/yandex/app/service/InMemoryTaskManager.java:177-183 | Updating a stored subtask without changing its epic preserves the invariant |
| TaskStore.DeleteTaskById | src/com/yandex/app/service/InMemoryTaskManager.java:189-192 | Exactly that task is removed, and the history loses its first entry with that id |
| TaskStore.DeleteEpicById | src/com/yandex/app/service/InMemoryTaskManager.java:198-205 | The epic is removed together with exactly the subtasks its list names; nothing else changes |
| TaskStore.DeleteSubtaskById | src/com/yandex/app/service/InMemoryTaskManager.java:211-220 | The subtask is removed and its epic loses the id and gets its status recomputed; an unknown id changes nothing |
| TaskStore.DeleteAllTasks | src/com/yandex/app/service/InMemoryTaskManager.java:226-228 | Every task is removed; epics, subtasks, history and counter stay |
| TaskStore.DeleteAllEpics | src/com/yandex/app/service/InMemoryTaskManager.java:234-237 | Every epic and every subtask is removed; the tasks stay |
| TaskStore.DeleteAllSubtasks | src/com/yandex/app/service/InMemoryTaskManager.java:243-249 | Every subtask is removed; each epic keeps its fields but has an empty list and status NEW |
| TaskStore.DeleteTaskKeepsValid | src/com/yandex/app/service/InMemoryTaskManager.java:189-192 | Deleting a task preserves the invariant |
| TaskStore.DeleteEpicKeepsValid | src/com/yandex/app/service/InMemoryTaskManager.java:198-205 | Deleting an epic preserves the invariant, with no dangling ids left in other epics' lists |
| TaskStore.DeleteSubtaskKeepsValid | src/com/yandex/app/service/InMemoryTaskManager.java:211-220 | In a valid store, deleting a subtask cannot reach a missing subtask, and it preserves the invariant |
| TaskStore.DeleteAllKeepValid | src/com/yandex/app/service/InMemoryTaskManager.java:226-249 | The three bulk deletes preserve the invariant |
| Csv.Escape | src/com/yandex/app/service/FileBackedTaskManager.java:84-93 | Null becomes an empty quoted field. Otherwise the result is the sanitized text, with quotes doubled, inside quotes |
| Csv.Unescape | src/com/yandex/app/service/FileBackedTaskManager.java:100-107 | `unescapeCSV` never lengthens its text, and a text without quotes is only trimmed; its inverse relation to the escaper is `UnescapeOfEscape` |
| Csv.UnescapeOfEscape | src/com/yandex/app/service/FileBackedTaskManager.java:84-107 | Unescaping an escaped field gives back the sanitized text, or the empty text for null |
| Csv.ParseCsvLine | src/com/yandex/app/service/FileBackedTaskManager.java:112-149 | The empty line has no fields; any other line has one field more than it has commas preceded by an even number of quotes |
| Csv.ScanCount | src/com/yandex/app/service/FileBackedTaskManager.java:122-146 | The state machine emits one field per comma outside quotes, plus the last; a doubled quote inside quotes leaves the side unchanged |
| Csv.ParseCsvLineLoop | src/com/yandex/app/service/FileBackedTaskManager.java:112-149 | The source's index loop, with its skip over a doubled quote, splits as the field-by-field state machine does |
| Csv.ScanJoined | src/com/yandex/app/service/FileBackedTaskManager.java:112-149 | Splitting comma-joined well-formed cells gives back their values, one field per cell |
| Csv.KindNamed | src/com/yandex/app/service/FileBackedTaskManager.java:161 | `TypeTask.valueOf` accepts exactly the three names `name()` writes, and inverts it |
| Csv.StatusNamed | src/com/yandex/app/service/FileBackedTaskManager.java:163 | `TaskStatus.valueOf` accepts exactly the three names `name()` writes, and inverts it |
| Csv.RowFields | src/com/yandex/app/service/FileBackedTaskManager.java:54-77 | A row has exactly the eight fields of the header |
| Csv.CellAt | src/com/yandex/app/service/FileBackedTaskManager.java:54-77 | Title and description are written as quoted cells and the other fields as bare cells; every cell splits back as one field |
| Csv.ToRow | src/com/yandex/app/service/FileBackedTaskManager.java:54-77 | `toString` joins the row's cell texts with commas, and the splitter gives back exactly the eight cell values; `RowHasNoLineBreak` and `RowRoundTrip` complete the round trip |
| Csv.RowHasNoLineBreak | src/com/yandex/app/service/FileBackedTaskManager.java:84-93 | A row holds no CR or LF, so each saved row reads back as one line |
| Csv.DurationField | src/com/yandex/app/service/FileBackedTaskManager.java:167-170 | A blank field is no duration. A number is read as a `long`, and one that `Duration.ofMinutes` cannot turn into seconds (beyond 153722867280912930 minutes either way) is refused, as the `ArithmeticException` fails the load |
| Csv.DurationFieldBound | src/com/yandex/app/service/FileBackedTaskManager.java:169 | 153722867280912930 minutes, the longest duration, reads back |
| Csv.DurationFieldOverflow | src/com/yandex/app/service/FileBackedTaskManager.java:169 | One minute more is a valid `long` but is refused as too long |
| JavaText.FitsDurationIffSecondsFit | src/com/yandex/app/service/FileBackedTaskManager.java:169 | The duration bound is exactly the minutes whose count of seconds fits in a `long` |
| Csv.StartField | src/com/yandex/app/service/FileBackedTaskManager.java:172-175 | A start time is absent exactly when the row has no seventh field or it is blank; otherwise it is read when it is a number and refused when not |
| Csv.EpicIdField | src/com/yandex/app/service/FileBackedTaskManager.java:179-192 | A blank or missing epic column is 0; otherwise the column is read as an `int`, and one `Integer.parseInt` refuses fails the row |
| Csv.DecodeFields | src/com/yandex/app/service/FileBackedTaskManager.java:159-195 | Decoding fails only with a field's own error, never a too-few-fields error. A decoded entity has an `int` id, a duration `Duration.ofMinutes` accepts, and the kind and status named in its fields. It uses the given title and description, and an epic comes back with an empty list. Its duration, start and epic id are the values the three field readers give, so a blank or missing start is absent and a blank or missing epic column is 0 |
| Csv.FromString | src/com/yandex/app/service/FileBackedTaskManager.java:154-158 | A row is refused as too short exactly when it splits into fewer than six fields |
| Csv.FromStringAsWritten | src/com/yandex/app/service/FileBackedTaskManager.java:154-196 | As written, with the same too-short rule, and with unescaping applied to the already split title and description |
| Csv.DecodeRowFields | src/com/yandex/app/service/FileBackedTaskManager.java:159-195 | Decoding the fields of an entity's row rebuilds that entity around the given title and description |
| Csv.RowRoundTrip | src/com/yandex/app/service/FileBackedTaskManager.java:54-196 | Corrected `fromString` (see ## Findings): any entity whose numbers fit reads back from its row with sanitized text, and an epic with an empty list and no end time |
| Csv.AsWrittenRowRoundTrip | src/com/yandex/app/service/FileBackedTaskManager.java:162-164 | As written, the title and description are unescaped once more than they were escaped |
| Csv.AsWrittenLosesQuotes | src/com/yandex/app/service/FileBackedTaskManager.java:162-164 | As written, a task titled `"a"` (quotes included) reloads titled `a`; the corrected reader keeps `"a"` |
| FileStore.LoadLine | src/com/yandex/app/service/FileBackedTaskManager.java:229-248 | A line is skipped exactly when it is empty after trimming |
| FileStore.LoadRows | src/com/yandex/app/service/FileBackedTaskManager.java:229-248 | A failing load names a line within the stretch it was given |
| FileStore.Load | src/com/yandex/app/service/FileBackedTaskManager.java:204-256 | Corrected (see ## Findings): `loadFromFile` with the corrected `fromString` and `addSubtask`. No lines gives an empty manager and a wrong header is refused. A loaded store's epic lists all resolve, and a failing row is reported with its own line number |
| FileStore.LoadAsWritten | src/com/yandex/app/service/FileBackedTaskManager.java:204-256 | `loadFromFile` as written, with the same empty-file, header and line-number guarantees, and every epic list resolving |
| FileStore.LoadRowsAppend | src/com/yandex/app/service/FileBackedTaskManager.java:229-248 | Loading two stretches of lines in turn is loading them in one go |
| FileStore.LoadRowsKeepLinks | src/com/yandex/app/service/FileBackedTaskManager.java:229-248 | Every id in a loaded epic's list names a loaded subtask |
| FileStore.AddSubtaskItem | src/com/yandex/app/service/InMemoryTaskManager.java:76-97 | The corrected `addSubtask` during a load: it fails the load when it throws, including when the status recomputation after the put meets a listed id with no subtask, and otherwise leaves the store `AddSubtask` leaves |
| FileStore.AddSubtaskItemAsWritten | src/com/yandex/app/service/InMemoryTaskManager.java:76-97 | `addSubtask` as written during a load: a subtask passed with its epic's id fails the load, and otherwise it behaves as `AddSubtaskAsWritten` |
| FileStore.AddItemAsWritten | src/com/yandex/app/service/FileBackedTaskManager.java:236-242 | The loader as written adds tasks and epics as the corrected loader does; only subtasks differ |
| FileStore.Save | src/com/yandex/app/service/FileBackedTaskManager.java:32-49 | `save` writes the header and then one line per stored entity |
| FileStore.ListsEveryEntity | src/com/yandex/app/service/InMemoryTaskManager.java:103-122 | `getAllTasks`, `getAllEpics` and `getAllSubtasks` list every stored entity, with exactly as many entries as the map holds |
| FileStore.RowIsTrimmed | src/com/yandex/app/service/FileBackedTaskManager.java:230 | A row is never empty and is not changed by the trim the loader applies |
| FileStore.RowCodecRoundTrips | src/com/yandex/app/service/FileBackedTaskManager.java:54-196 | The corrected `fromString` inverts `toString` for every reloadable entity, up to sanitized text |
| FileStore.RowCodecAsWrittenFails | src/com/yandex/app/service/FileBackedTaskManager.java:162-164 | The `fromString` as written does not invert `toString` |
| FileStore.OneRowLoads | src/com/yandex/app/service/FileBackedTaskManager.java:204-256 | A file of the header and one written row loads, in each loader, as that row decoded by its `fromString` and added to an empty manager |
| FileStore.LoadAsWrittenLosesQuotes | src/com/yandex/app/service/FileBackedTaskManager.java:162-164 | A task titled `"a"` reloads titled `"a"` through the corrected loader and `a` through the loader as written |
| FileStore.LoadAsWrittenRefusesSubtaskOfEpicZero | src/com/yandex/app/service/InMemoryTaskManager.java:85-87 | For any title and description, the saved row of a new subtask (id 0) of epic 0 loads as subtask 1 of epic 0 when corrected, and fails the load as written |
| FileStore.LoadAsWrittenStoresOwnEpic | src/com/yandex/app/service/InMemoryTaskManager.java:85-87 | For any title and description, the saved row of a new subtask of epic 1 fails the load when corrected, and as written loads as subtask 1 of epic 1, its own epic |
| FileStore.AddItemAddsLikeManager | src/com/yandex/app/service/FileBackedTaskManager.java:236-242 | Each decoded entity with a positive id goes under that id. An epic arrives bare, and a subtask is appended to its epic's list |
| FileStore.LoadTaskRows | src/com/yandex/app/service/FileBackedTaskManager.java:229-248 | The task rows put every task, cleaned, under its id and touch no epic or subtask |
| FileStore.LoadEpicRows | src/com/yandex/app/service/FileBackedTaskManager.java:229-248 | The epic rows put every epic, cleaned and bare, under its id |
| FileStore.LoadSubtaskRows | src/com/yandex/app/service/FileBackedTaskManager.java:229-248 | The subtask rows put every subtask under its id, and append each id to its epic's list in file order |
| FileStore.OwnedByMembers | src/com/yandex/app/service/InMemoryTaskManager.java:92-96 | The list an epic is rebuilt with holds exactly the saved subtasks that name it |
| FileStore.TasksInAnyOrder | src/com/yandex/app/service/FileBackedTaskManager.java:36-38 | The reloaded tasks do not depend on the iteration order `save` used |
| FileStore.LoadAfterHeader | src/com/yandex/app/service/FileBackedTaskManager.java:222-248 | A file whose first line is the header loads as its trimmed rows |
| FileStore.SaveThenLoad | src/com/yandex/app/service/FileBackedTaskManager.java:32-256 | Loading what `save` wrote succeeds. Every task and subtask comes back with sanitized text. Every epic comes back with its fields, sanitized text, no end time, and a list of exactly its subtasks in saved order |
| FileStore.ReloadedListsAreOwners | src/com/yandex/app/service/FileBackedTaskManager.java:32-256 | After a reload, an epic's list holds an id iff that subtask was saved and names the epic |

## Left out

- File I/O: `save` yields the list of lines it would write, and `Load` takes the lines `Files.readAllLines` would return.
  - `IOException`, the missing or empty file check (`file.length() == 0`), the debug print and the constructor's `File` are not modelled.
  - An empty file and an empty list of lines give the same empty manager.
- `FileBackedTaskManager`'s overrides call `save()` after every mutation, including during a load. That is I/O only; the store is the in-memory manager's.
- Dates: `LocalDateTime` start times and end times are whole minutes (`int`), and `LocalDateTime.toString` and `parse` are decimal text. `Duration` is a number of minutes.
- Library parsing:
  - `Integer.parseInt` and `Long.parseLong` are modelled on ASCII digits with an optional sign, with the range checks of `int` and `long`.
  - `Character.isWhitespace` and `String.trim` are modelled on the characters the codec meets.
- `Task.java`'s fields, constructor and copy constructor show no `duration` and `startTime`, while `Epic.java` and `FileBackedTaskManager.java` call `getDuration`, `setStartTime` and a six-argument constructor. The model gives every entity optional duration and start fields and copies them. This follows the code that uses them.
- TaskStore.ComputeEpicStatus: `updateEpicStatus` throws `NullPointerException` when a listed id names no subtask. Its callers therefore require that every listed id resolves, in `addSubtask` after the new subtask is put. The store invariant `Valid` guarantees this, and the loader's `AddSubtaskItem` turns the throw into a failed load.
- TaskStore.AddTaskKeepsValid: holds only while the counter and the supplied id are below 2147483647; past that the counter wraps and falls behind the stored ids (`CounterWrapOverwrites`).
- TaskStore.AddEpicKeepsValid: holds only below the wrap, as above, and only for a list naming subtasks of the epic.
- TaskStore.AddNewEpicKeepsValid: holds only while the counter is below 2147483647.
- TaskStore.AddSubtaskKeepsValid: holds only below the wrap, only for the corrected `addSubtask` (as written, a subtask can be stored as its own epic, `AsWrittenStoresOwnEpic`), and only when a positive supplied id is not already a stored subtask. `addSubtaskId` appends without checking for the id, so re-adding a listed subtask lists it twice (`ReaddedSubtaskIsListedTwice`).
- TaskStore.UpdateSubtaskKeepsValid: holds only when the subtask keeps its epic; the source's `updateSubtask` with a new epic id leaves the old epic listing the subtask and does not list it in the new one.
- FileStore.Load: models `loadFromFile` with the corrected `fromString` and `addSubtask`, and the save-then-load theorems are about it. The code as written is `LoadAsWritten`; the two differ on the rows shown in ## Findings.
- Model.Task: the title and description are never null. `Escape(None)` models `clearStringForCSV(null)`, which writes `""`; that reloads as the empty text, not as null.
- Model.UpdateEpicTime: the subtask durations are summed as unbounded integers; `Duration.plus` would throw on a sum past the `long` range of seconds.
- TaskStore.UpdateTask: `updateTask`, `updateEpic` and `updateSubtask` store the caller's object itself. The caller's later mutations of it (aliasing) are not modelled, because stored values are immutable.
- History deduplication and time-overlap checks: the history interface's comment says a task already in the history moves to the end, and the manager tests expect no duplicates in the history and an `IllegalArgumentException` for overlapping time windows. The implementation does neither (`add` only appends, and no add or update compares windows), so the model does neither.
- HashMap iteration order is an explicit parameter (`taskOrder`, `epicOrder`, `subtaskOrder`) that lists every key once. The reload theorem holds for every such order.
- FileStore.SaveThenLoad:
  - It does not state the reloaded epic's status. The manager recomputes it from the subtasks as they are added, so it may differ from the stored one.
  - It requires each map to be keyed by its entities' ids, and every stored entity to have a positive `int` id, a duration `Duration.ofMinutes` accepts, and (for a subtask) an `int` epic id other than its own id, because rows with other values do not read back as written. It puts no condition on the epic lists: the reload rebuilds them from the subtask rows.
- The epic end time is not written to a row (`toString` has no such column) and `updateEpicTime` is not called by the manager, so a reloaded epic has no end time.
- The loader theorems are proved for any row codec, add and cleaning that satisfy the properties `RoundTrips`, `AddsLikeManager` and `KeepsIds`. They are then applied to `toString`, the corrected `fromString` and the manager's adds.
- `Task.toString`, `Epic.toString` and `Subtask.toString` (debug text), `getTitle`-style getters (field access), `getHistory` of the manager (it delegates to the history), `Managers`, the HTTP server, handlers and JSON adapters, `Main`, and the old top-level `src/Task.java`, `src/Epic.java` and `src/Subtask.java`: outside the manager's logic.

## Findings

| source | as written | input that shows it | evidently intended | confidence | as-written member | corrected member |
|---|---|---|---|---|---|---|
| src/com/yandex/app/service/InMemoryTaskManager.java:85-87 | the self-epic check compares the epic id with the id the caller passed (0 for a new subtask), not the id the subtask is stored under | on an empty manager, `addSubtask(new Subtask("s", "d", NEW, 1))` is stored as subtask 1 of epic 1; `addSubtask` of a new subtask of epic 0 is refused; a file row `0,SUBTASK,"s",NEW,"d",,,1` loads as its own epic | refuse a subtask whose assigned id equals its epic id | not executed | TaskStore.AsWrittenStoresOwnEpic | TaskStore.AddSubtaskNeverSelfOwned |
| src/com/yandex/app/service/FileBackedTaskManager.java:162-164 | `fromString` applies `unescapeCSV` to the title and description that `parseCSVLine` has already unquoted, so one level of quoting is removed twice | a task titled `"a"` (with the quotes) is saved as `"""a"""` and reloads titled `a` | use the fields as `parseCSVLine` returns them | not executed | Csv.AsWrittenLosesQuotes | FileStore.RowCodecRoundTrips |
