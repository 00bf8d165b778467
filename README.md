# Calendar task widget — Dafny model

This project models the logic inside the `Calendar` React component of a
single-page month calendar. Each day of the current month can hold a list of
free-text tasks. The model has three parts:

- **The task store** (`store.dfy`, module `Store`): a map from a date to the
  ordered list of its tasks. Its operations add a task, replace a task at an
  index, and delete a task at an index. Deleting a date's last task drops the
  date. The invariant is that every date present has at least one task.
  `Store.Run` applies a sequence of operations, and the lemmas prove that every
  store reachable from the empty one keeps the invariant.
- **The selection and edit state** (`app.dfy`, class `App.Calendar`): the
  selected date, the draft text, the optional edit target `(date, index)` and
  the store, all updated in place by the handlers: a date click, typing, a
  submit, an edit click and a delete click. The object invariant `Valid()`
  holds the store invariant and the rule that an edit target names the
  selected date and a position that date's list has. Each handler keeps
  `Valid()` and states its complete new state. `App.Session` is a client
  that runs a whole session through the handlers' contracts.
- **The month grid** (`grid.dfy`, module `Grid`): `startDay` blank cells,
  then one cell per day `1..daysInMonth`. A day cell is highlighted when its
  date is a key of the store.

`text.dfy` (module `Text`) models ECMAScript's `String.prototype.trim`. The
handlers use it to reject blank drafts and to store the trimmed text. Its
whitespace set is the WhiteSpace and LineTerminator code points of ECMA-262.
`wrappers.dfy` holds the `Option` datatype.

Dates are keys of type `Store.DateKey(year, month, day)`. The component keys
its map by the `YYYY-MM-DD` text of the date. That text and the date determine
each other, so keying by the date itself is the same map.

Line 11 of `src/App.jsx` parses the saved text without a guard, so malformed
saved data makes `JSON.parse` throw. The model takes the decoded saved map (or
none) as a constructor input and does not model a fallback.

## Model

| member | source | states |
|---|---|---|
| Text.Trim | src/App.jsx:33 | the trimmed draft is the draft with its whitespace margins cut off, and it is empty exactly when the draft is blank, so `!taskInput.trim()` holds exactly for blank drafts |
| Text.TrimUnique | src/App.jsx:38 | any way of cutting whitespace margins off a string leaves `Trim`'s result, so the stored text is determined by the draft |
| Text.TrimIdempotent | src/App.jsx:43 | trimming an already trimmed text changes nothing |
| Text.TrimKeeps | src/App.jsx:43 | a text without whitespace margins is stored exactly as typed |
| Store.TasksOn | src/App.jsx:40-41 | a date with no entry reads as the empty list; in a valid store a date has tasks exactly when it is a key |
| Store.Add | src/App.jsx:39-44 | appends the task to the end of the date's list, or makes a one-element list when the date has none; no other date changes; the invariant is kept |
| Store.Update | src/App.jsx:37-38 | replaces only the entry at the index; the list keeps its length and every other entry in order; no other date changes; the invariant is kept |
| Store.RemoveAt | src/App.jsx:60 | removing index i keeps the entries before i in place, moves the later ones down by one, and removes exactly one occurrence of the deleted task |
| Store.Delete | src/App.jsx:57-64 | removes the entry at the index; the date stays in the map exactly when it had more than one task; no other date changes; the invariant is kept |
| Store.RunKeepsValid | src/App.jsx:35-64 | any sequence of add, update and delete operations on a valid store ends in a valid store |
| Store.ReachableIsValid | src/App.jsx:11 | starting from the empty map, no date is ever present with an empty list |
| Store.DeleteAllRemovesDate | src/App.jsx:60-63 | deleting a date's tasks one by one at index 0 removes exactly that date from the map |
| Store.ScenarioAdds | src/App.jsx:40-43 | adding two tasks to a date with none lists them in the order added |
| Store.ScenarioEdit | src/App.jsx:38 | replacing the first of two tasks keeps the second in place |
| Store.ScenarioDeletes | src/App.jsx:60-62 | deleting the second and then the last task leaves the empty map |
| Grid.Cells | src/App.jsx:83-97 | the grid has `startDay + daysInMonth` cells; cell i is blank iff `i < startDay`; otherwise it shows day `i - startDay + 1`, a day in `1..daysInMonth`, keyed by that day's date, and is highlighted iff that date is a key of the store |
| Grid.EveryDayLabelled | src/App.jsx:99 | the range test on a day cell's label always passes, so every day cell shows its own number and blank cells show nothing |
| Grid.BlanksThenDays | src/App.jsx:87-88 | after k leading blank cells, the day numbers shown are those of the remaining cells, in order |
| Grid.DaysInOrder | src/App.jsx:83-88 | the days shown are exactly 1, 2, …, daysInMonth, in order |
| Grid.DayPosition | src/App.jsx:84 | day d sits at position `startDay + d - 1` and nowhere else, and carries its date's key |
| Grid.HighlightMeansTasks | src/App.jsx:95 | in a valid store, a cell is highlighted exactly when its date has at least one task |
| Grid.AddHighlights | src/App.jsx:95 | after a task is added to day d, d's cell is highlighted and no other cell changes |
| Grid.DeleteLastUnhighlights | src/App.jsx:95 | deleting the only task of day d clears d's highlight and no other cell changes |
| App.Calendar.constructor | src/App.jsx:7-13 | nothing selected, empty draft, no edit target, and the store is the saved map or the empty map |
| App.Calendar.DateClick | src/App.jsx:24-29 | selects the clicked day's date, clears the draft and the edit target, and leaves the store unchanged |
| App.Calendar.Input | src/App.jsx:111 | the draft becomes the typed text and nothing else changes |
| App.Calendar.Submit | src/App.jsx:31-50 | a blank draft changes nothing. Otherwise, with an edit target the trimmed draft replaces that entry; without one it is appended to the selected date's list. Then the draft and the edit target are cleared |
| App.Calendar.Edit | src/App.jsx:52-55 | the draft becomes the task's text and the edit target becomes (selected date, index), which names a position of that date's list; the store is unchanged |
| App.Calendar.DeleteTask | src/App.jsx:57-68 | the store becomes `Store.Delete` of the selected date and index; the draft and the edit target are cleared |

## Left out

- Rendering (JSX, CSS classes, icons), the submit button's label (line 119) and the task list display (lines 104-148): these are presentation only.
- React's state and effect machinery: each setter is modelled as an assignment to a field, in handler order. The `setTasks` updater reads the handler's own `selectedDate`, `editingTask` and draft, and the model does the same.
- `localStorage` and JSON (lines 10-11, 15-17): the saved map is a constructor input, and persisting after each change is not modelled. Serialising and reloading the map is therefore not modelled either.
- App.Calendar.constructor: requires the saved map to satisfy the store invariant. The storage slot is written only by this component, and the component only produces maps that satisfy it.
- dayjs (lines 19-21, 25, 73, 85): the month's `daysInMonth` (28..31) and `startDay` (0..6) are constructor inputs. Formatting a date key is replaced by the `DateKey` datatype. Line 19 reads the clock at every render; the model fixes the month at construction, so a session that crosses a month boundary (which changes the grid and the keys that clicks produce) is not modelled.
- The date keys computed for blank cells at line 85, where dayjs rolls day numbers of 0 or less into the previous month. These keys are never used.
- Out-of-range indices: JavaScript writes a sparse entry at line 38 and does nothing in `splice` at line 60. The interface only offers positions of the displayed list, so `Edit`, `DeleteTask` and `Store.Update`/`Store.Delete` require a valid index. `Store.Run` returns `None` for an operation that names a missing position.
- App.Calendar.Edit: takes the task text as an argument, as the handler does, and does not check that it equals the stored entry; the list passes the stored entry (line 130).
- Submit, Edit and DeleteTask require a selected date, because the form and the list render only when one is selected (line 104).
- The in-place mutation of the previous state's inner arrays at lines 36 and 59 (a shallow copy). In a build where each state updater runs once, no one can observe it, and the model updates the store as a new map value. React may call an updater twice (development StrictMode does); then the `push` at line 43 or the `splice` at line 60 acts twice on the inner array shared with the previous state, duplicating a task or deleting two entries. That behaviour is not modelled.
- `e.preventDefault()` at line 32 is browser I/O.
