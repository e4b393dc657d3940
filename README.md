# Task manager state model

A Dafny model of the `TaskManager` component of a single-page task list
(`src/app/page.js`). The component keeps five pieces of state: the task
list, the create draft, the edit target, the edit draft and the alert. It
changes them in response to the initial load, the Add/Update button, the
row buttons Edit and Delete, and typing in the three form inputs.

The model has two modules.

- `Tasks` (`tasks.dfy`) holds the values: `Task` (`id`, the source's `_id`;
  title, due date, description), `Draft`, `Field`, and the three collection transforms the
  handlers apply. These are `Appended` (`[...tasks, created]`), `Replaced`
  (`tasks.map` with the identifier test) and `Removed` (`tasks.filter`).
  Lemmas state what each transform does to length, order, membership and
  identifiers.
- `TaskManagerState` (`task_manager.dfy`) holds the class `TaskManager`.
  Its fields are the five state slots. Each handler is a method. Every
  request to the backend becomes a `Response` parameter, either
  `Ok(data)` or `Fail`. `AddTask`, `UpdateTask` and `Submit` return
  `requested`, which is false exactly when the completeness check refused
  the draft before any request.

Two JavaScript details are kept.

- Edit mode is the truthiness of the edit target (`InEditMode`). `null` is
  `None`. An identifier `""` is falsy, so the form stays in create mode.
- The completeness check is falsiness of the three draft strings, so an
  empty string fails (`IsComplete`).

`TaskManager.Valid` is the invariant that every handler keeps: with no edit
target, the edit draft is empty.

Three facts about the code shape the model.

- A task's identifier field is `_id`.
- Delete drops every entry with the identifier. `RemovedOne` shows that
  this is exactly one entry when identifiers are unique and the identifier
  is listed.
- The edit state is a nullable identifier tested for truthiness.

## Model

| member | source | states |
|---|---|---|
| `Tasks.Draft.With` | src/app/page.js:93-106 | a field edit sets that one field of a draft to the typed value and leaves the other two fields unchanged |
| `Tasks.IsComplete` | src/app/page.js:28 | the completeness check passes exactly when every one of the three draft fields is a non-empty string |
| `Tasks.Replaced` | src/app/page.js:50 | the update's map keeps the list's length |
| `Tasks.Removed` | src/app/page.js:63 | the delete's filter never lengthens the list, and every survivor was listed before and has a different identifier |
| `Tasks.DraftOf` | src/app/page.js:73 | the edit draft takes exactly the task's title, due date and description, so it passes the completeness check exactly when all three are non-empty |
| `Tasks.Appended` | src/app/page.js:34 | after a create the list is one longer, the old entries keep their positions, the created task is last, and the multiset of entries gains exactly that task |
| `Tasks.AppendThenRemove` | src/app/page.js:34 | creating a task with a fresh identifier and then deleting that identifier gives back the original list |
| `Tasks.AppendedUnique` | src/app/page.js:34 | on a list with unique identifiers, the list after a create has unique identifiers if and only if the new identifier was not listed |
| `Tasks.ReplacedAt` | src/app/page.js:50 | after an update, position i holds the returned task if entry i's identifier equals the edit target, and the old entry otherwise |
| `Tasks.ReplacedNoTarget` | src/app/page.js:50 | with a null edit target no entry matches, so the list is unchanged |
| `Tasks.ReplacedIdentity` | src/app/page.js:50 | if every matching entry already equals the returned task, the update leaves the list unchanged |
| `Tasks.SaveUnchanged` | src/app/page.js:50 | on a list with unique identifiers, saving a listed task unchanged leaves the list unchanged, and the task is not moved to the end |
| `Tasks.ReplacedIds` | src/app/page.js:50 | if the returned task has the target identifier, the sequence of identifiers is unchanged |
| `Tasks.ReplacedUnique` | src/app/page.js:50 | if the returned task keeps the target identifier, an update keeps identifiers unique |
| `Tasks.RemovedMember` | src/app/page.js:63 | a task survives a delete if and only if it was listed and has a different identifier |
| `Tasks.RemovedLength` | src/app/page.js:63 | a delete shortens the list by exactly the number of entries that had the identifier |
| `Tasks.RemovedConcat` | src/app/page.js:63 | deleting from a concatenation gives the concatenation of the two deletes, so survivors keep their relative order |
| `Tasks.RemovedAbsent` | src/app/page.js:63 | deleting an identifier that is not listed leaves the list unchanged |
| `Tasks.RemovedIdempotent` | src/app/page.js:63 | no entry has the deleted identifier afterwards, and deleting it a second time changes nothing |
| `Tasks.RemovedMultiset` | src/app/page.js:63 | the survivors are a sub-multiset of the old list, and every task with a different identifier keeps its multiplicity |
| `Tasks.RemovedOne` | src/app/page.js:63 | on a list with unique identifiers, deleting a listed identifier removes exactly one entry |
| `Tasks.RemovedUnique` | src/app/page.js:63 | a delete keeps identifiers unique |
| `TaskManagerState.TaskManager.constructor` | src/app/page.js:8-12 | the initial state has an empty list, empty drafts, a null edit target and an empty alert |
| `TaskManagerState.TaskManager.Load` | src/app/page.js:15-22 | a successful load sets the list to the response data, or to the empty list when there is no data, and leaves the alert; a failed load changes only the alert, to the load error; the drafts and edit target never change |
| `TaskManagerState.TaskManager.AddTask` | src/app/page.js:27-41 | an incomplete create draft sends no request, sets the "All fields are required." alert and changes nothing else; on success the returned task is appended, the create draft is cleared and the success alert is set; on failure only the alert changes; the edit state is never touched |
| `TaskManagerState.TaskManager.UpdateTask` | src/app/page.js:43-58 | an incomplete edit draft sends no request, sets the required-fields alert and changes nothing else; on success every entry whose identifier equals the edit target is replaced by the returned task, the edit target becomes null and the edit draft empty; on failure edit mode and the edit draft stay; the create draft is never touched; with a null edit target no request is ever sent |
| `TaskManagerState.TaskManager.DeleteTask` | src/app/page.js:60-69 | on success the list keeps exactly the entries with another identifier and the success alert is set; on failure only the alert changes; the drafts and edit target never change |
| `TaskManagerState.TaskManager.EditClick` | src/app/page.js:71-74 | the row's task becomes the edit target and its title, due date and description overwrite the edit draft; edit mode holds exactly when that identifier is non-empty; the list, create draft and alert stay |
| `TaskManagerState.TaskManager.EditField` | src/app/page.js:92-106 | in edit mode only the typed field of the edit draft changes, otherwise only that field of the create draft; the typed input shows the new value and the other inputs are unchanged |
| `TaskManagerState.TaskManager.Submit` | src/app/page.js:108-114 | the button does exactly what UpdateTask does when the edit target is truthy, and exactly what AddTask does otherwise; it sends a request exactly when none of the three inputs it shows is empty |

## Left out

- The HTTP calls (`axios.get`, `post`, `put`, `delete`) are network I/O. Each is a `Response` parameter. The request's URL and body are not modelled.
- Async interleaving is not modelled. Handlers capture `tasks` when they run, so overlapping requests can race and one update can be lost. Each handler here is one atomic step.
- The `useEffect` mount lifecycle is not modelled. `Load` models only the state change of the one-time fetch.
- Rendering is not modelled: the JSX, the alert banner's colour, the button label, the table rows and the `date-fns` date format.
- `console.error` logging has no effect on state and is not modelled.
- The response data is taken to be a task or a list of tasks. A malformed response body (not a task, a task without `_id`, a non-array list) is not modelled.
- Identifiers are strings. The source compares with `===`, so a non-string `_id` could behave differently.
