# Task list widget: a Dafny model

This project models the logic of a browser task-tracking widget made of three custom elements:

- **`task-list`** is a table of task rows, newest first.
  - Each row shows the title and the status, a status select headed by a `<Modify>` option with value `"0"`, and a Remove button.
  - The table is built by the first `showTask` and torn down by the `removeTask` that empties it.
  - Every `showTask` and `removeTask` dispatches a `countChange` notification with the current row count.
  - A select change (other than to `<Modify>`) hands `{id, status}` to the change-status callback. A Remove click hands `{id, title}` to the delete-task callback.
- **`task-box`** is a hidden input for one new task: a title field and a status select with a disabled `<Choose status>` placeholder.
  - A submit attempt passes only when the trimmed title and the status are both non-empty.
  - A passing attempt hands `{title, status}` to the single registered callback, then closes the box.
- **`task-view`** is the composition root.
  - It loads the status list, then the task list, shows the tasks, wires its handlers and enables the New task button.
  - Its PUT, DELETE and POST handlers reconcile the list with the server's replies.

## How it is modelled

- The DOM state becomes class fields:
  - `TaskList` holds `rows: seq<Row>`, `tableExists`, the stored status list, the two callback slots, and logs of count notifications (`counts`) and callback invocations (`calls`).
  - `TaskBox` holds `hidden`, `title`, its `options`, `selectedIndex`, the callback slot and a log of `submissions`.
  - A callback is represented by an identity (`CallbackId`). An invocation is recorded in the log with the identity of the callback that received it.
- A select is a list of option values plus `selectedIndex`, where -1 means that no option is selected, as in the DOM.
  - The value of a select is that of its selected option, or `""` when none is selected.
  - When `showTask` builds a row, the last option equal to the task's status ends up selected, because each append with `selected` set deselects the earlier ones.
  - `updateTask`'s `select.value = status` selects the first matching option. It selects none when the row does not offer that status.
- Each operation that changes state is a method. Its postcondition ties the new rows to a function of the old ones: `NewRow`, `UpdateRows`, `RemoveFirst`, `ShowAll`. The lemmas beside these functions state the properties.
  - `TaskList.Valid()` says that rows only exist inside a table, and that the latest count notification equals the current row count.
  - `TaskList.Tidy()` says that the table exists exactly when there are rows.
  - `TaskBox.Valid()` says that every value ever handed to the submit callback passed validation: a non-empty title with no whitespace at either end, and a non-empty status.
- Replies from `fetch` are input values (`Reply<B>`, `StatusesReply`, `TasksReply`), not I/O.
  - Each handler's decision is a pure function (`StatusToApply`, `DeleteAccepted`, `CreateActionFor`).
  - The handler applies the resulting `TaskList` operation. It also records the request it sent in `requests`.
- User actions that the source only receives as events are methods:
  - `TaskList.ChangeSelect` and `TaskList.ClickRemove` act on one row.
  - `TaskBox.EditTitle` (typing in the title field), `TaskBox.ChangeStatus` and `TaskBox.Submit` (Enter) act on the box.
  - `TaskView.ClickNewTask` presses the New task button.
- `String.prototype.trim` is modelled by `Text.Trim`. It strips ECMAScript white space and line terminators.

Behaviour of the code that the model keeps:

- An accepted POST reply without a `task` field still reaches `showTask`. That call builds the table and then throws on `task.id`. On an empty list this leaves a table without rows. This is `TaskList.ShowTaskWithoutTask`, and `MissingTaskScenario` exhibits it.
- Three behaviours of the code are easy to misread. The model keeps each as the code has it:
  - Only the PUT handler checks `res.ok` (`taskview.js:79`). The DELETE and POST handlers never read it (`taskview.js:97-99`, `taskview.js:112-119`). `OkIgnoredByDeleteAndPost` states this.
  - `TaskList.setStatuseslist` only stores the list (`tasklist.js:47-49`). Rows already shown keep their options, and only rows shown afterwards offer the new list.
  - The header comment of the box (`taskbox.js:3`) says that Escape closes it. No handler for Escape exists, so the model has none.

## Model

| member | source | states |
|---|---|---|
| Text.TrimStart | src/main/resources/static/components/taskbox/taskbox.js:118 | the result is a suffix of the input, everything cut is whitespace, and it does not start with whitespace |
| Text.TrimEnd | src/main/resources/static/components/taskbox/taskbox.js:118 | the result is a prefix of the input, everything cut is whitespace, and it does not end with whitespace |
| Text.Trim | src/main/resources/static/components/taskbox/taskbox.js:118 | `String.prototype.trim`: leading whitespace is cut by `TrimStart`, then trailing whitespace by `TrimEnd`. Its properties are stated by `TrimIsSlice`, `TrimEnds`, `TrimEmptyIff` and `TrimIdempotent` |
| Text.TrimIsSlice | src/main/resources/static/components/taskbox/taskbox.js:118 | `trim` keeps a contiguous slice of its input and cuts only whitespace on either side |
| Text.TrimEnds | src/main/resources/static/components/taskbox/taskbox.js:118 | a trimmed string is empty or starts and ends with a non-whitespace character |
| Text.TrimEmptyIff | src/main/resources/static/components/taskbox/taskbox.js:118-122 | the trimmed title is empty (falsy) exactly when the title is all whitespace |
| Text.TrimIdempotent | src/main/resources/static/components/taskbox/taskbox.js:118 | trimming twice equals trimming once |
| TaskListElement.InitialSelection | src/main/resources/static/components/tasklist/tasklist.js:104-110 | a new row's select starts on the last status option equal to the task's status, or on `<Modify>` (index 0) when none is equal |
| TaskListElement.NewRow | src/main/resources/static/components/tasklist/tasklist.js:80-110 | the row `showTask` builds: the task's id, title and status, `"0"` followed by the stored statuses as options, and the initial selection of `InitialSelection`. `NewRowShowsTask` states what the row shows |
| TaskListElement.NewRowShowsTask | src/main/resources/static/components/tasklist/tasklist.js:101-110 | a new row shows the task's id, title and status. It offers `"0"` and then the stored statuses in order. Its select shows the task's status when that is offered, and `"0"` otherwise |
| TaskListElement.FindRow | src/main/resources/static/components/tasklist/tasklist.js:123 | the row lookup finds the first row in display order carrying the id, and finds nothing exactly when no row carries it |
| TaskListElement.FirstIndexOf | src/main/resources/static/components/tasklist/tasklist.js:131 | setting a select's value selects the first option with that value, and selects none (-1) exactly when no option has it |
| TaskListElement.UpdateRows | src/main/resources/static/components/tasklist/tasklist.js:121-133 | `updateTask` never changes the number of rows |
| TaskListElement.UpdateRowsEffect | src/main/resources/static/components/tasklist/tasklist.js:121-133 | an unknown id changes nothing. A known id changes only the first such row, and in it only the status cell and the select value (blank when the status is not offered). The title, the options and all other rows are unchanged |
| TaskListElement.RemoveFirst | src/main/resources/static/components/tasklist/tasklist.js:139-143 | an unknown id leaves the rows as they were. A known id removes exactly one row |
| TaskListElement.RemoveFirstCounts | src/main/resources/static/components/tasklist/tasklist.js:139-143 | removal takes exactly one row carrying the id when there is one, and no row carrying any other id |
| TaskListElement.RemoveFirstKeepsOrder | src/main/resources/static/components/tasklist/tasklist.js:139-143 | the remaining rows keep their order: those above the removed row stay in place, and those below move up by one |
| TaskListElement.TaskList.constructor | src/main/resources/static/components/tasklist/tasklist.js:33-41 | the list starts with no rows, no table, an empty status list, no callbacks and no notifications |
| TaskListElement.TaskList.SetStatuseslist | src/main/resources/static/components/tasklist/tasklist.js:47-49 | replaces the stored list and changes no existing row |
| TaskListElement.TaskList.AddChangestatusCallback | src/main/resources/static/components/tasklist/tasklist.js:56-58 | the change-status slot holds only the newest callback |
| TaskListElement.TaskList.AddDeletetaskCallback | src/main/resources/static/components/tasklist/tasklist.js:65-67 | the delete-task slot holds only the newest callback |
| TaskListElement.TaskList.BuildSelect | src/main/resources/static/components/tasklist/tasklist.js:104-110 | the option loop yields `"0"` followed by the statuses in order, with the last option equal to the task's status selected, or index 0 when there is none |
| TaskListElement.TaskList.ShowTask | src/main/resources/static/components/tasklist/tasklist.js:74-114 | the new row goes on top, the existing rows keep their order, and duplicate ids are accepted. The table exists afterwards. Exactly one count notification is sent, equal to the new row count |
| TaskListElement.TaskList.ShowTaskWithoutTask | src/main/resources/static/components/tasklist/tasklist.js:74-84 | `showTask` with no task builds the table and then fails: no row is added and no notification is sent |
| TaskListElement.TaskList.UpdateTask | src/main/resources/static/components/tasklist/tasklist.js:121-133 | the rows become `UpdateRows` of the old rows. No notification is sent, and the table and the invariants are kept |
| TaskListElement.TaskList.RemoveTask | src/main/resources/static/components/tasklist/tasklist.js:139-151 | removes the first row carrying the id and tears the table down when none is left. Exactly one count notification is sent, even when nothing was removed. Afterwards the table exists exactly when rows do |
| TaskListElement.TaskList.UpdateCount | src/main/resources/static/components/tasklist/tasklist.js:153-159 | appends the current row count to the notification log and changes nothing else |
| TaskListElement.TaskList.GetNumtasks | src/main/resources/static/components/tasklist/tasklist.js:165-167 | returns the number of rows on display |
| TaskListElement.TaskList.ChangeSelect | src/main/resources/static/components/tasklist/tasklist.js:86-92 | picking an option selects it. The change callback receives `{id, status}` only when the selection changed, the value is not `"0"` and a callback is registered |
| TaskListElement.TaskList.ClickRemove | src/main/resources/static/components/tasklist/tasklist.js:94-99 | the delete callback, when registered, receives the row's `{id, title}`. Nothing else changes |
| TaskBoxElement.StatusOptions | src/main/resources/static/components/taskbox/taskbox.js:67-86 | one option more than S has: the disabled placeholder with value `""`, then S in order, all enabled |
| TaskBoxElement.Validate | src/main/resources/static/components/taskbox/taskbox.js:118-124 | the check `#submit` makes: the entry to emit is the trimmed title with the select's value, or nothing when either is empty. `ValidateRejects` and `ValidateAcceptsClean` state what it accepts |
| TaskBoxElement.ValidateRejects | src/main/resources/static/components/taskbox/taskbox.js:117-124 | a submit attempt is rejected exactly when the title is all whitespace or the status is empty |
| TaskBoxElement.ValidateAcceptsClean | src/main/resources/static/components/taskbox/taskbox.js:117-124 | an accepted entry carries the trimmed title, which is non-empty, already trimmed and has no whitespace at either end, and the chosen status |
| TaskBoxElement.TaskBox.constructor | src/main/resources/static/components/taskbox/taskbox.js:31-61 | the box starts hidden, with an empty title, no options, no selection and no callback |
| TaskBoxElement.TaskBox.SetStatuseslist | src/main/resources/static/components/taskbox/taskbox.js:67-86 | the options become exactly `StatusOptions(S)` with the placeholder selected, discarding the old ones. The title and visibility are kept |
| TaskBoxElement.TaskBox.Open | src/main/resources/static/components/taskbox/taskbox.js:89-96 | the box becomes visible and the title and selection keep their values |
| TaskBoxElement.TaskBox.Close | src/main/resources/static/components/taskbox/taskbox.js:99-106 | the box is hidden, the title emptied and index 0 selected when options exist. Closing a closed box changes nothing |
| TaskBoxElement.TaskBox.OnSubmit | src/main/resources/static/components/taskbox/taskbox.js:112-114 | the single slot holds only the newest callback |
| TaskBoxElement.TaskBox.Submit | src/main/resources/static/components/taskbox/taskbox.js:117-130 | an invalid attempt leaves the box unchanged: still open, fields kept, no callback. A valid attempt hands the validated entry to the currently registered callback once, if there is one, and closes the box either way |
| TaskBoxElement.TaskBox.ChangeStatus | src/main/resources/static/components/taskbox/taskbox.js:56-60 | choosing a different status submits only when the trimmed title and the new status are non-empty, so nothing unvalidated reaches the callback |
| TaskBoxElement.SubmitScenario | src/main/resources/static/components/taskbox/taskbox.js:56-60 | typing a title and choosing "todo": a title of only whitespace sends nothing and leaves the box open with the text kept. Any other title sends its trimmed form once and closes the box with the title emptied |
| TaskViewElement.Accepted | src/main/resources/static/components/taskview/taskview.js:87 | the test `responseStatus !== false` shared by the three handlers: only an explicit `false` refuses, and an absent value accepts |
| TaskViewElement.StatusToApply | src/main/resources/static/components/taskview/taskview.js:79-92 | a network failure, a non-ok reply or an unreadable body applies nothing. An ok reply applies a status exactly when `responseStatus` is not `false`, and that status is the server's `status` if present, else the requested one |
| TaskViewElement.DeleteAccepted | src/main/resources/static/components/taskview/taskview.js:96-105 | the row is removed exactly when a readable reply arrived whose `responseStatus` is not `false`, whatever its HTTP status |
| TaskViewElement.CreateActionFor | src/main/resources/static/components/taskview/taskview.js:118-124 | the list is touched exactly when a readable reply has `responseStatus` not `false` and `task` not `false`. It shows the reply's task, or reaches `showTask` with nothing when `task` is absent |
| TaskViewElement.OkIgnoredByDeleteAndPost | src/main/resources/static/components/taskview/taskview.js:79-119 | the HTTP ok flag changes nothing for DELETE and POST, while a non-ok PUT reply is always ignored |
| TaskViewElement.ShowAll | src/main/resources/static/components/taskview/taskview.js:60 | the rows after `showTask` is called on each loaded task in server order, each new row going on top. `ShowAllReverses` states the resulting order |
| TaskViewElement.ShowAllReverses | src/main/resources/static/components/taskview/taskview.js:60 | showing the loaded tasks one by one lists them in reverse server order above the earlier rows |
| TaskViewElement.CountsAfterShows | src/main/resources/static/components/taskview/taskview.js:60 | n successive `showTask`s on a list of `start` rows dispatch exactly the counts start+1, …, start+n |
| TaskViewElement.TaskView.constructor | src/main/resources/static/components/taskview/taskview.js:24-34 | the view starts with an empty list, a hidden box, a disabled button and nothing wired |
| TaskViewElement.TaskView.Init | src/main/resources/static/components/taskview/taskview.js:50-65 | a failed statuses load gives neither child the statuses, shows nothing and wires nothing, and the button stays disabled. A failed tasks load stops after both children got the statuses. A full boot shows every task (a missing `tasks` counts as none), wires the three handlers and only then enables the button |
| TaskViewElement.TaskView.ShowTasks | src/main/resources/static/components/taskview/taskview.js:60 | the rows become `ShowAll` of the loaded tasks, with one count notification per task |
| TaskViewElement.TaskView.WireCallbacks | src/main/resources/static/components/taskview/taskview.js:70-127 | the PUT, DELETE and POST handlers occupy the list's and the box's slots. Nothing else changes |
| TaskViewElement.TaskView.ClickNewTask | src/main/resources/static/components/taskview/taskview.js:108 | opens the box once the button is enabled, and does nothing before that |
| TaskViewElement.TaskView.OnStatusChange | src/main/resources/static/components/taskview/taskview.js:71-93 | sends `PUT /task/{id}` and then updates the row as `StatusToApply` decides, or leaves the list unchanged |
| TaskViewElement.TaskView.OnDeleteTask | src/main/resources/static/components/taskview/taskview.js:96-105 | sends `DELETE /task/{id}` and runs `removeTask(id)` exactly when `DeleteAccepted` holds, with one count notification |
| TaskViewElement.TaskView.OnCreateTask | src/main/resources/static/components/taskview/taskview.js:111-125 | sends `POST /task` and, as `CreateActionFor` decides, shows the created task on top, builds an empty table, or leaves the list unchanged |
| TaskViewElement.StatusChangeScenario | src/main/resources/static/components/taskview/taskview.js:71-93 | loading `["todo","done"]` and task 1 "todo", then choosing "done", sends `PUT /task/1 {status:"done"}`. The reply `{responseStatus:true,status:"done"}` makes the single row show "done" |
| TaskViewElement.CreateScenario | src/main/resources/static/components/taskview/taskview.js:111-125 | with task 1 loaded, the POST reply `{responseStatus:true, task:{2,"B","todo"}}` follows the request `POST /task {B, todo}`. It puts task 2 on top showing "todo", and the count goes from 1 to 2 |
| TaskViewElement.DeleteScenario | src/main/resources/static/components/taskview/taskview.js:96-105 | a DELETE answered `responseStatus:false` keeps the row. One answered `true` removes it and tears the table down |
| TaskViewElement.MissingTaskScenario | src/main/resources/static/components/taskview/taskview.js:118-120 | after an empty load, an accepted POST reply without a task leaves a table on display with 0 rows |

## Left out

- Templates, shadow roots, `cloneNode`, `querySelector`, style sheets and `customElements.define` are left out. They are replaced by the fields described above.
- `fetch`, request headers, JSON encoding and the configured base URL are left out. A reply is a value. A failed fetch in `init` is treated like a non-ok reply, since both stop the boot at the same point. A body that is not JSON is `None`.
- Concurrent handlers and replies arriving out of order are left out. Each handler runs to completion, one at a time.
- The `countChange` listener of the view is left out. It only writes a message, and it reads a `lastTask` field that the list never sends.
- Console logging is left out, and so is the deferred focus and select in `open`.
- Routing of the Enter key (whether the event target is inside the box) is left out. An Enter press is a call to `Submit`.
- Box interactions are not tied to visibility. The model lets a submit attempt happen whether or not the box is shown.
- Task ids are integers compared by equality. In the source, a row is found through its string `task-id` attribute, so ids that only agree after string conversion also match.
- Titles and statuses are strings. A non-boolean `responseStatus` is not represented: the code treats it like an absent one.
- `init` with a statuses reply that lacks `allstatuses` is not modelled. The status list is always a sequence.
- `init` runs once per element in the model: `TaskView.Init` requires a view that has not booted yet. In the source, `connectedCallback` (`taskview.js:36-45`) calls `init` each time the element is attached to a document. A second boot shows every loaded task again, so rows are duplicated. It also adds the handlers again, and the slots keep only the newest of each. If its statuses load fails, the button stays enabled from the first boot, so the model's tie between an enabled button and a completed boot does not hold for a re-attached element.
- Every element of the loaded `tasks` is a task record in the model. In the source, a `null` element makes `showTask` throw at `task.id` (`tasklist.js:84`) part way through the loop at `taskview.js:60`. The table has been built and the earlier tasks are shown and counted, but nothing is wired and the button stays disabled. `TasksReply` cannot express such an element.
- TaskListElement.UpdateRows: its own contract only keeps the row count. What changes and what does not is stated by `UpdateRowsEffect`.
