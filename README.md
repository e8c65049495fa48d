# Task list: a Dafny model of `script.js`

`script.js` runs a browser to-do list. The page keeps its tasks in one local-storage key,
`"tasks"`. Each task is a record `{ id, text, completed }`. On page load the stored tasks are
read, their text is upper-cased, and they are rendered in storage order. The add button trims
the input, rejects blank input, builds a task with upper-cased text, renders it and appends it
to storage. Each rendered task has a complete/undo button and a delete button. The first flips
`completed`, writes the task back by id and relabels the button. The second removes every stored
entry with that id. Every store operation reads the whole collection and, if it writes, writes the
whole collection back. Update writes only when some entry has the id.

The model has four modules, one per concern of the script:

- `Text` (`text.dfy`): `trim` and `toUpperCase`. `Trim` strips exactly the ECMAScript
  WhiteSpace and LineTerminator characters. `Upper` upper-cases the ASCII letters only.
- `Tasks` (`tasks.dfy`): the `Task` record and the pure list operations behind the store.
  `FindIndex` is lodash `findIndex` (first match or -1). `UpdateById` is the guarded
  `tasks[taskIndex] = updatedTask`. `RemoveId` is lodash `filter` on `task.id !== taskId`.
  The module also has the lemmas about these operations: order, frame, idempotence and
  uniqueness of ids.
- `Storage` (`store.dfy`): class `Store`. Its field `slot: Option<seq<Task>>` is the `"tasks"`
  key, and `None` means the key was never written. Its methods `Save`, `Update` and `Delete`
  are the three read-modify-write functions of the script.
- `View` (`view.dfy`): the page-load transform and recursive render, the add handler's
  validation (`NewTask`) and handler (`OnAdd`), and class `TaskItem`. A `TaskItem` is a rendered
  element. It holds the task object that its click handlers share and the text of its
  complete/undo button. `View.ReadBookScenario` is a client of these. It adds "read book" to an
  empty store and clicks complete, and it asserts that the stored entry is then completed and
  the button reads "Undo".

Consequences of the code that are easy to miss:

- Toggling persists the upper-cased copy made at load. The page load renders upper-cased copies
  of the stored tasks (script.js:26-30). The complete/undo handler writes back the copy it was
  given (script.js:94-96). So the first toggle after a reload stores the task's text
  upper-cased (`View.ToggleAfterLoadWritesUpper`).
- Update replaces only the *first* entry with the id, and writes nothing when no entry has it
  (script.js:132-136). A slot that was never written therefore stays absent (`Storage.Store.Update`).
- Delete removes *every* entry with the id and always writes (script.js:150). A slot that was
  never written therefore becomes `[]` (`Storage.Store.Delete`).

## Model

| member | source | states |
|---|---|---|
| `Text.TrimStart` | script.js:51 | the result is a suffix of the input, everything dropped is white space, and it does not start with white space |
| `Text.TrimEnd` | script.js:51 | the result is a prefix of the input, everything dropped is white space, and it does not end with white space |
| `Text.Trim` | script.js:51 | the trimmed input has no surrounding white space, and it is empty exactly when the input is all white space |
| `Text.TrimOfPadded` | script.js:51 | trimming `p + m + q` yields `m` for any white-space `p`, `q` and any `m` without surrounding white space (an independent characterisation of trim) |
| `Text.TrimOfTight` | script.js:51 | input without surrounding white space is left unchanged by trim |
| `Text.TrimIdempotent` | script.js:51 | trimming twice is trimming once |
| `Text.UpperChar` | script.js:59 | a lower-case ASCII letter becomes its capital (code minus 32); every other character is unchanged; the result is never lower-case |
| `Text.Upper` | script.js:59 | same length as the input, no lower-case letter left, each character upper-cased in place |
| `Text.UpperFixedIff` | script.js:28 | upper-casing leaves a string unchanged exactly when it has no lower-case letter |
| `Text.UpperIdempotent` | script.js:28 | upper-casing twice is upper-casing once |
| `Tasks.Stored` | script.js:117 | reading the slot with an empty-array fallback (the same read is at lines 25, 131 and 148) gives the empty collection when the slot is absent and the stored collection otherwise |
| `Tasks.FindIndex` | script.js:132 | the result is -1 exactly when no entry has the id; otherwise it is the position of the first entry with that id |
| `Tasks.UpdateById` | script.js:132-136 | same length; when some entry has the id, the first such entry becomes the new task and every other position is unchanged; with no such entry, the collection is unchanged |
| `Tasks.UpdateByIdUnique` | script.js:132-134 | with unique ids, updating replaces exactly the entry carrying the id |
| `Tasks.UpdateByIdPreservesUnique` | script.js:132-134 | updating keeps ids unique |
| `Tasks.UpdateByIdIdempotent` | script.js:129-136 | updating twice with the same task is updating once |
| `Tasks.Occurrences` | script.js:149 | the number of entries with an id is at most the length, and zero exactly when the id is absent |
| `Tasks.RemoveId` | script.js:149 | no entry of the result has the id; a task is in the result exactly when it is in the input with another id; the length drops by the number of matches |
| `Tasks.RemoveIdAbsent` | script.js:149 | deleting an id no entry carries leaves the collection unchanged |
| `Tasks.RemoveIdIdempotent` | script.js:148-150 | deleting twice is deleting once |
| `Tasks.RemoveIdConcat` | script.js:149 | the filter distributes over concatenation, so kept entries stay in their relative order |
| `Tasks.RemoveIdUnique` | script.js:149 | with unique ids, deleting the id of entry `k` gives exactly the collection without position `k`, one entry shorter |
| `Tasks.OccurrencesUnique` | script.js:149 | with unique ids, an id occurs once if present and never otherwise |
| `Tasks.RemoveIdPreservesUnique` | script.js:148-150 | deleting keeps ids unique |
| `Tasks.AppendUniqueIff` | script.js:117-119 | appending a task keeps ids unique exactly when its id is not already present |
| `Tasks.Toggled` | script.js:95 | the toggled task keeps its id and text and has the opposite completion flag |
| `Tasks.ToggleInvolution` | script.js:95 | toggling twice restores the task |
| `Storage.Store.Save` | script.js:115-123 | the slot becomes the old collection (an absent slot read as empty) with the task appended: one longer, earlier entries unchanged; unique ids stay unique when the new id is fresh |
| `Storage.Store.Update` | script.js:129-140 | the collection becomes the first-match update; when no entry has the id the slot is left exactly as it was, absent included; unique ids stay unique |
| `Storage.Store.Delete` | script.js:146-154 | the slot is always written, with the filtered collection; afterwards no entry has the id; unique ids stay unique |
| `View.Label` | script.js:87-89 | the button reads "Undo" exactly when the task is completed and "Complete" exactly when it is not |
| `View.RenderTask` | script.js:79-92 | the rendered item carries the task's id and text, and its button label is the one its completion flag calls for: "Undo" when completed, "Complete" when not |
| `View.Render` | script.js:41-45 | rendering from `index` shows one item per task from `index` on, in index order; from past the end it shows nothing |
| `View.LoadTransform` | script.js:26-29 | same length and order; each entry keeps its id and completion flag, and its text is upper-cased |
| `View.LoadTransformIdempotent` | script.js:26-29 | transforming an already transformed collection changes nothing |
| `View.LoadTransformKeepsUpper` | script.js:26-29 | a collection whose texts have no lower-case letter, as the add handler creates them, is left unchanged |
| `View.OnLoad` | script.js:23-34 | the page shows one item per stored task in storage order, with upper-cased text and the label its flag calls for; an absent slot shows nothing |
| `View.OnLoadBuyMilk` | script.js:25-30 | a stored `buy milk` task that is not completed is shown as `BUY MILK` with a "Complete" button |
| `View.NewTask` | script.js:51-61 | no task exactly when the input is all white space; otherwise the id is the clock reading, the text is the trimmed input upper-cased (non-empty, no lower-case letter), and the task is not completed |
| `View.NewTaskOfTight` | script.js:51-61 | input without surrounding white space becomes a task whose text is just that input upper-cased |
| `View.NewTaskReadBook` | script.js:51-61 | the input "read book" becomes the task `READ BOOK`, not completed |
| `View.ToggleAfterLoadWritesUpper` | script.js:94-96 | with unique ids, toggling the loaded copy of entry `k` stores that entry with its text upper-cased and its flag flipped; every other entry is unchanged |
| `View.TaskItem.constructor` | script.js:79-92 | a rendered element holds its task, its button label matches the task's flag, and task and label together are exactly what `RenderTask` shows for that task |
| `View.TaskItem.OnComplete` | script.js:94-101 | the shared task's flag flips; the store gets the first-match update with the new task (nothing is written if the id is absent); the button label matches the new flag |
| `View.TaskItem.OnDelete` | script.js:103-106 | the store is written with every entry carrying the item's id removed |
| `View.OnAdd` | script.js:50-70 | blank input leaves the store and the input field unchanged and renders nothing; otherwise a fresh item for the new task is rendered with a "Complete" button, the task is appended to the store, and the field is cleared |

## Left out

- JSON text form: `JSON.parse` and `JSON.stringify` are not modelled. The slot holds the collection itself, so malformed stored text is not modelled, and neither is the `catch` in `window.onload` that logs a parse error.
- Storage failures: the `try`/`catch` blocks that rethrow "Failed to … localStorage" (script.js:120-122, 137-139, 151-153) and the logging `catch` in the add handler are not modelled. Storage reads and writes always succeed in the model.
- `alert` and `console.error` are output only and are not modelled. For `alert`, the model keeps only the condition it is shown under: `NewTask` returns `None`.
- `Date.now()` is passed to `View.OnAdd` and `View.NewTask` as the parameter `now`. The source does not guarantee unique ids (two adds in one millisecond share one), so the lemmas that need unique ids take `UniqueIds` as a precondition.
- Ids are modelled as unbounded integers. JavaScript numbers are doubles, and every `Date.now()` value fits in one exactly.
- DOM work is not modelled: element creation, `innerHTML`, the `completed` CSS class (including `classList.add(null)`, which adds a literal `null` class), `appendChild` and `li.remove()`. `View.TaskItem` keeps only the task and the button text, and `View.Render` only lists the items in the order they are appended.
- Text.Upper: upper-cases the ASCII letters only. The full Unicode `toUpperCase` (accented letters, `ß` becoming `SS`, length changes) is not modelled.
- Lodash internals are not modelled. Only the observable behaviour of `findIndex` (first match or -1) and `filter` (order-preserving selection) is specified.
