# ToDoList task store — a Dafny model

This project models the logic core of a small to-do list app. The core is a
flat table of `Task` records, held by the persistence controller, which
offers five operations:

- upsert a task (`saveTask`);
- delete a task (`deleteTask`);
- flip a task's completion flag (`toggleCompletion`);
- a one-time seed import from a remote list of `Todo` items (`saveTasks`,
  started by `checkAndLoadData` only when the store is empty);
- a fetch sorted newest first, with an optional title filter (`fetchTasks`).

The model also covers three rules from the views:

- the list screen's in-memory search filter;
- the Russian plural form of its task-count label;
- the editor's save guard, which decides whether a new task or an edited
  task reaches the store.

The store is an immutable `seq<Task>`. Each operation is a pure function
from one store value to the next, so each one is a single atomic step.

Modules:

- `TaskModel`: `Task`, `Todo`, `Store`, id lookup and the id-uniqueness
  predicate.
- `Persistence`: the controller's operations, plus `Run`, which applies
  any sequence of them.
- `ContentView`: the search filter, and the count label checked against
  the CLDR Russian plural rules (UTS #35, Part 3 Numbers, "Language
  Plural Rules").
- `TaskDetail`: how the editor is filled when it opens, and what happens
  to the store when it closes.
- `Sequences` and `Wrappers`: generic helpers (filter, subsequence,
  substring search; `Option`).

Modelling choices:

- `deleteTask` and `toggleCompletion` take a reference to a stored object.
  The model names that object by its position `at` in the table.
- Looking up a task by id takes the first task with that id in the
  model's table order. Core Data returns an unsorted fetch in no defined
  order, so `existingTasks.first` may be any task with the id. The choice
  matters only when ids repeat; once ids are unique, exactly one task has
  the id.
- Timestamps are integers.
- The current time (`Date()`) is a parameter `now`.
- `dateFromString` is a parameter `parse: string -> Option<int>`.
- `CONTAINS[cd]` is modelled with a per-character folding parameter
  `fold`.
- `lowercased()` is modelled as ASCII lower-casing. The model does not
  claim the two title filters agree.
- Ties in `createdDate` are broken by a stable insertion sort. The
  contracts speak only of order and of which tasks appear, not of how
  ties are broken.

`PersistenceController.saveTask` has no empty-title check
(PersistenceController.swift:148-195). Only the editor's guard refuses an
empty title (TaskDetailView.swift:57). So `Persistence.SaveTask` stores
empty titles, and `TaskDetail.Close` refuses them.

## Model

| member | source | states |
|---|---|---|
| `TaskModel.IndexOfId` | ToDoListApp/Core/PersistenceController.swift:153-158 | the lookup by id finds a task with that id, and no earlier task has it; it finds nothing exactly when no stored task has the id |
| `TaskModel.LargestIdOrZero` | ToDoListApp/Core/PersistenceController.swift:174-178 | the first id of the id-descending fetch is at least the id of every fetched row and is itself a fetched row's id; it is 0 when nothing is fetched. In `saveTask` the fetch always holds the new task, so that default never applies there |
| `Persistence.NextId` | ToDoListApp/Core/PersistenceController.swift:171-179 | the max-id fetch also sees the new, still unsaved task with its default id 0. So the allocated id is one more than the largest of the stored ids and 0: it is larger than every stored id, so unused; it is 1 when no stored id is positive (an empty store included); otherwise it is one more than a stored id |
| `Persistence.SaveTask` | ToDoListApp/Core/PersistenceController.swift:148-195 | saving with a stored id overwrites that task's title, subtitle, date and flag in place and touches no other task, so the count is unchanged; a given id that is not stored appends exactly one task with that id and the given fields; no id appends exactly one task with a fresh 16-bit id: 1 when no stored id is positive, otherwise the largest stored id + 1 |
| `Persistence.SaveTaskKeepsIdsUnique` | ToDoListApp/Core/PersistenceController.swift:152-191 | every save keeps stored ids pairwise distinct |
| `Persistence.DeleteTask` | ToDoListApp/Core/PersistenceController.swift:197-203 | deletion removes exactly one occurrence of the given task and keeps every other task; deleting the only task leaves an empty store |
| `Persistence.DeleteTaskRemovesId` | ToDoListApp/Core/PersistenceController.swift:197-203 | with unique ids, no task with the deleted task's id remains, and ids stay unique |
| `Persistence.ToggleCompletion` | ToDoListApp/Core/PersistenceController.swift:205-210 | the toggled task's completion flag is negated and its other fields are kept; every other task is unchanged |
| `Persistence.ToggleTwiceRestores` | ToDoListApp/Core/PersistenceController.swift:205-210 | toggling the same task twice gives back the original store |
| `Persistence.ToggleKeepsIdsUnique` | ToDoListApp/Core/PersistenceController.swift:205-210 | toggling keeps ids unique |
| `Persistence.SaveTasks` | ToDoListApp/Core/PersistenceController.swift:77-105 | the seed import leaves existing tasks untouched and in place; afterwards every payload id is stored; every added task is the mapping of a payload item whose id was not stored before: todo to title, description to subtitle, completed to flag, parsed createdAt or now to date; unique ids stay unique |
| `Persistence.SaveTasksInsertsEveryNewId` | ToDoListApp/Core/PersistenceController.swift:81-97 | the converse: a payload item whose id is neither stored nor carried by an earlier item is added |
| `Persistence.SaveTasksAllPresent` | ToDoListApp/Core/PersistenceController.swift:81-97 | a payload whose ids are all stored leaves the store unchanged |
| `Persistence.SaveTasksIdempotent` | ToDoListApp/Core/PersistenceController.swift:77-105 | running the import again with the same payload changes nothing, whatever the clock reads |
| `Persistence.SeedOneItemIntoEmptyStore` | ToDoListApp/Core/PersistenceController.swift:89-96 | importing one item into an empty store yields exactly that item's task, dated by its parsed createdAt |
| `Persistence.CheckAndLoadData` | ToDoListApp/Core/PersistenceController.swift:22-44 | a non-empty store, or a failed download, is left unchanged; an empty store ends up holding the payload's tasks, one per distinct id, with unique ids |
| `Persistence.SortByCreatedDesc` | ToDoListApp/Core/PersistenceController.swift:127-128 | the result is a permutation of its input ordered by createdDate, newest first |
| `Persistence.FetchTasks` | ToDoListApp/Core/PersistenceController.swift:125-146 | the fetch is ordered newest first; with an empty query it returns every stored task; with a non-empty query it returns exactly the tasks whose title contains the query under the folding, each as often as it is stored |
| `Persistence.RunKeepsIdsUnique` | ToDoListApp/Core/PersistenceController.swift:77-210 | no sequence of saves, deletes, toggles and loads ever stores two tasks with the same id |
| `ContentView.Lowercased` | ToDoListApp/TodoView/ContentView.swift:35 | lower-casing keeps the length, leaves no upper-case ASCII letter, maps each of 'A' to 'Z' to its lower-case letter and leaves every other character alone (ASCII only; see Left out) |
| `ContentView.Displayed` | ToDoListApp/TodoView/ContentView.swift:34-35 | the listed rows are an order-preserving subsequence of the fetched tasks; an empty query lists every fetched task in fetched order; with a non-empty query a task without a title is never listed |
| `ContentView.DisplayedIffTitleHoldsQuery` | ToDoListApp/TodoView/ContentView.swift:35 | with a non-empty query, a fetched task is listed exactly when its lower-cased title holds the lower-cased query at some position |
| `ContentView.DisplayedIdempotent` | ToDoListApp/TodoView/ContentView.swift:34-35 | filtering the listed rows again with the same query changes nothing |
| `ContentView.DisplayedNewestFirst` | ToDoListApp/TodoView/ContentView.swift:6-35 | whatever newest-first order the createdDate-descending fetch returns, ties included, the listed rows keep it |
| `ContentView.QueryCaseIrrelevant` | ToDoListApp/TodoView/ContentView.swift:35 | lower-casing the query first does not change which rows are listed |
| `ContentView.CountLabelKey` | ToDoListApp/TodoView/ContentView.swift:96-99 | the label uses the "one" key exactly for CLDR "one" counts, "few" exactly for CLDR "few", and "many" exactly for CLDR "many" |
| `ContentView.CountFormIsCldr` | ToDoListApp/TodoView/ContentView.swift:96-99 | the view's nested conditions pick the CLDR Russian category of every count; its test "last two digits 10 to 20" agrees with the rule's "12 to 14" |
| `ContentView.CldrCategoriesPartition` | ToDoListApp/TodoView/ContentView.swift:96-99 | each count falls in exactly one of one, few and many |
| `ContentView.CountFormByLastTwoDigits` | ToDoListApp/TodoView/ContentView.swift:96-97 | the form depends on count % 100 alone, so the separate `count == 1` branch is redundant |
| `ContentView.CountFormExamples` | ToDoListApp/TodoView/ContentView.swift:96-99 | 1, 21 and 101 are "one"; 11 and 111 are "many"; 2 and 24 are "few"; 112, 0, 5 to 20 and 25 to 30 are "many" |
| `TaskDetail.Open` | ToDoListApp/TodoView/TaskDetailView.swift:10-47 | a new task's editor is empty and dated now; an existing task's editor shows its title, subtitle and date, with a missing text shown as the empty string |
| `TaskDetail.Close` | ToDoListApp/TodoView/TaskDetailView.swift:56-66 | an empty title leaves the store unchanged; editing a stored task updates it in place under its id and keeps its completion flag, so the count is unchanged; a bound task no longer stored is added back under its id; a new task is added with a fresh id and not completed |
| `TaskDetail.BlankTitleIsSaved` | ToDoListApp/TodoView/TaskDetailView.swift:57 | only the exact empty title is refused: a blank title adds a task |
| `TaskDetail.OpenThenClose` | ToDoListApp/TodoView/TaskDetailView.swift:41-66 | opening a stored task and closing the editor unedited leaves the store unchanged when the title is missing or empty, because the guard refuses it; otherwise the task is rewritten with its own fields, except that a missing subtitle becomes the empty string |
| `TaskDetail.OpenThenCloseChangesNothing` | ToDoListApp/TodoView/TaskDetailView.swift:41-66 | opening a stored task that has a subtitle, then closing the editor unedited, leaves the store as it was |
| `TaskDetail.OpenThenCloseFillsMissingSubtitle` | ToDoListApp/TodoView/TaskDetailView.swift:43-63 | a titled task without a subtitle, such as a seeded item without a description, is changed by opening and closing it unedited: its subtitle becomes the empty string |

## Left out

- The Core Data machinery is not modelled: container set-up, store
  loading, `saveContext`'s `hasChanges` check, and the `fatalError` paths.
  The store is a plain value.
- Background dispatch and callback delivery are not modelled. Each
  operation is one atomic step, so the ordering races between queued
  operations, including those in the unit tests, are out of scope.
- Networking and JSON decoding are not modelled. The seed payload is an
  already-decoded `seq<Todo>`, and `None` stands for a failed request or
  an undecodable response.
- Date parsing, the current time and date display formatting are not
  modelled. Parsing is the `parse` parameter; the clock is the `now`
  parameter.
- `Persistence.SaveTasks`: a single `now` stands for every `Date()`
  fallback in one batch. The source reads the clock once per item.
- Case- and diacritic-insensitive comparison is abstract. `CONTAINS[cd]`
  is a folding parameter, and `lowercased()` is ASCII lower-casing;
  Unicode case mapping is not modelled.
- Search compares Unicode scalars, not Swift Characters, and folds one
  character at a time. `String.contains` compares grapheme clusters, so
  the title "cafe\u{301}" does not contain "cafe" in Swift but does in
  `ContentView.Displayed`. The per-character `fold` also cannot express a
  fold that changes length, such as the removal of combining marks by
  `CONTAINS[cd]` or a case fold that turns one character into two.
- The fetch-failure branches are not modelled. This includes the `id = 1`
  fallback when the max-id fetch fails, which could break id uniqueness,
  and the empty result when a fetch fails.
- 16-bit id narrowing is a precondition, not a trap: given ids must fit in
  16 bits; an allocated id must not exceed 32767; seed ids must fit in 16
  bits.
- `Persistence.SaveTasks`: its precondition asks every payload id to fit
  in 16 bits. The source traps only on the items it actually inserts.
- `Persistence.NextId` assumes the `id` attribute defaults to 0. A new
  task carries that default when the max-id fetch runs. The Core Data
  model file, which declares the default, is not part of this model.
- The model assumes `createdDate` is always set. Every creation path in
  the store sets it, so the editor's `?? Date()` fallback for a missing
  date is not modelled.
- The SwiftUI layout, gestures, blur, sharing and context-menu state are
  not modelled. This includes swipe-to-delete (`deleteTasks` in
  `ContentView`), whose offsets index the unfiltered list and only forward
  to `deleteTask`.
- One unit test expects "Task 1" first from `fetchTasks`, although both
  tasks are created in that order and the fetch sorts newest first. That
  expectation is not encoded.
