# To-Do List task store, modelled in Dafny

This project models the logic of a single-page to-do list written in React.
The `ToDoList` component keeps an ordered list of tasks (`{ text, completed }`)
together with a filter, an error message, the position of the task being edited
and an edit buffer. It adds tasks and rejects case-insensitive duplicates. It
toggles, deletes and edits tasks by position, and it shows a filtered view of
the list. The `ToDoForm` component forwards non-blank input to `addTodo`.

Files:

- `wrappers.dfy`: `Option`, used for JavaScript's `null` and for "nothing to add".
- `text.dfy` (module `Text`): `trim` over the ECMAScript whitespace and line-terminator
  code points, `toLowerCase` on ASCII letters, and case-insensitive equality.
- `tasks.dfy` (module `Tasks`): the `Task` record and the pure list transforms the
  component builds new arrays with (`some`, spread, the positional `map` and
  `filter`, the filter projection), with their properties. It also holds the
  invariant "no two tasks have case-insensitively equal texts". Adding,
  toggling and deleting keep that invariant. Saving an edit can break it.
- `todo_list.dfy` (module `ToDoList`): class `TaskStore`. Its fields are the
  component's five state variables plus `slot`, the local-storage entry. Its
  methods are the component's operations.
- `todo_form.dfy` (module `ToDoForm`): the submit guard as a function, and class
  `Form` holding `inputValue` with the `handleSubmit` method.

Positions are kept exactly as the code has them. Every store operation indexes
the full list. The view passes row positions of the filtered list, and it
compares `editIndex` against those rows. The model does not adjust the
positions. `Tasks.ViewRowIsNotListPosition` shows a concrete list where the
visible row 0 and list position 0 are different tasks. Tasks have no
identifiers. After a deletion, `editIndex` can point at another task or past
the end, and `SaveEdit` then edits that other task or changes nothing.

Behaviour of the code a reader might not expect:
- Stored texts are not trimmed. The form checks `trim()` but forwards the input
  as typed.
- A malformed stored value is not read as an empty list. `JSON.parse` would
  throw, and no `try` surrounds it. The model's constructor takes the list as
  already decoded (see "Left out").
- Out-of-range positions in `toggleComplete`, `deleteTodo` and `saveEdit`
  change nothing, because the positional `map`/`filter` matches no element.
  `startEditing` reads `todos[index].text`, so it requires an index in range.

## Model

| member | source | states |
|---|---|---|
| `Text.TrimStart` | src/components/ToDoForm.jsx:14 | the result is a suffix of the input, everything dropped is whitespace, and it is empty or starts with a non-whitespace character |
| `Text.TrimEnd` | src/components/ToDoForm.jsx:14 | the result is a prefix of the input, everything dropped is whitespace, and it is empty or ends with a non-whitespace character |
| `Text.Trim` | src/components/ToDoForm.jsx:14 | `trim()` is the slice of the input left after cutting whitespace-only text from both ends; it has no whitespace at either end and is empty exactly when the input is blank |
| `Text.IsWhitespace` | src/components/ToDoForm.jsx:14 | space, tab, line feed and carriage return are among the characters `trim` removes, and no ASCII letter or digit is |
| `Text.LowerChar` | src/components/ToDoList.jsx:32 | a lowered character is never an upper-case ASCII letter, and it is a lower-case letter exactly when the input was a letter of either case |
| `Text.ToLower` | src/components/ToDoList.jsx:32 | `toLowerCase` keeps the length and lowers each character in place |
| `Text.ToLowerIdempotent` | src/components/ToDoList.jsx:32 | lowering twice is the same as lowering once |
| `Text.SameText` | src/components/ToDoList.jsx:32 | `a.toLowerCase() === b.toLowerCase()` holds iff the texts have the same length and agree letter by letter after lowering |
| `Tasks.ContainsIgnoringCase` | src/components/ToDoList.jsx:32 | `some(...)` is true iff some task's lowered text equals the lowered new text |
| `Tasks.AddTask` | src/components/ToDoList.jsx:32-37 | rejection happens iff some task matches case-insensitively; otherwise the list grows by one, keeps every earlier task, and ends with `{text, completed: false}` |
| `Tasks.AddPreservesDistinct` | src/components/ToDoList.jsx:32-37 | adding keeps the list free of case-insensitive duplicates |
| `Tasks.AddAgainRejected` | src/components/ToDoList.jsx:32-35 | once a text has been added, adding it again in any letter case is rejected |
| `Tasks.AddPreservesNoBlankTexts` | src/components/ToDoList.jsx:37 | appending a non-blank text keeps every text non-blank |
| `Tasks.UpdateAt` | src/components/ToDoList.jsx:42-43 | the positional `map` keeps the length, transforms the task at the given position and leaves every other task unchanged |
| `Tasks.Toggled` | src/components/ToDoList.jsx:42-44 | toggling keeps the length and every text, flips `completed` at the index only, and leaves every other task unchanged |
| `Tasks.ToggleTwice` | src/components/ToDoList.jsx:41-45 | toggling the same position twice restores the original list |
| `Tasks.ToggleOutOfRange` | src/components/ToDoList.jsx:42-44 | toggling an out-of-range position leaves the list unchanged |
| `Tasks.TogglePreservesDistinct` | src/components/ToDoList.jsx:41-45 | toggling keeps the list free of case-insensitive duplicates |
| `Tasks.WithTextAt` | src/components/ToDoList.jsx:60-62 | saving an edit replaces only the target's text, keeps its `completed` flag and every other task, and changes nothing when out of range |
| `Tasks.EditMayBreakDistinct` | src/components/ToDoList.jsx:59-62 | saving an edit has no duplicate check: editing `["a","b"]` at position 1 to "A" breaks the no-duplicates invariant |
| `Tasks.Deleted` | src/components/ToDoList.jsx:48-50 | the positional `filter` removes exactly the element at an in-range index (`todos[..i] + todos[i+1..]`) and otherwise returns the list unchanged |
| `Tasks.DeletePreservesDistinct` | src/components/ToDoList.jsx:48-50 | deleting keeps the list free of case-insensitive duplicates |
| `Tasks.DeletePreservesNoBlankTexts` | src/components/ToDoList.jsx:48-50 | deleting keeps every text non-blank |
| `Tasks.Shown` | src/components/ToDoList.jsx:69-71 | a task is hidden only by `'completed'` when it is not completed, or by `'incomplete'` when it is |
| `Tasks.Visible` | src/components/ToDoList.jsx:68-72 | every task shown passes the filter, and each task appears in the view exactly as often as in the list when it passes the filter, and not at all otherwise |
| `Tasks.VisibleIsSubsequence` | src/components/ToDoList.jsx:68-72 | the filtered view is an order-preserving subsequence of the list |
| `Tasks.VisibleUnfiltered` | src/components/ToDoList.jsx:68-72 | `'all'`, or any value other than `'completed'` and `'incomplete'`, returns the list unchanged |
| `Tasks.VisibleSplit` | src/components/ToDoList.jsx:68-72 | the completed and incomplete views together hold each task exactly as often as the list, so their lengths sum to the list's |
| `Tasks.ViewRowIsNotListPosition` | src/components/ToDoList.jsx:93-111 | with filter `'completed'` the only visible row is task "b", but toggling row 0 flips the hidden task "a" |
| `ToDoList.TaskStore.constructor` | src/components/ToDoList.jsx:14-27 | the list comes from the slot, or is empty when nothing is stored; filter `'all'`, no error, no edit; the slot then holds the list |
| `ToDoList.TaskStore.Valid` | src/components/ToDoList.jsx:25-27 | the persistence effect has written the current list to the slot (the invariant every store method keeps) |
| `ToDoList.TaskStore.Reload` | src/components/ToDoList.jsx:14-27 | mounting again after any operation reads back exactly the current list, with filter `'all'`, no error and no edit |
| `ToDoList.TaskStore.AddTodo` | src/components/ToDoList.jsx:30-38 | when `Tasks.AddTask` reports a case-insensitive match, the list is unchanged and the error is "Task already exists!"; otherwise `{text, completed: false}` is appended; no-duplicates is preserved |
| `ToDoList.TaskStore.ToggleComplete` | src/components/ToDoList.jsx:41-45 | only `completed` at the index flips; texts and length are kept; no-duplicates is preserved |
| `ToDoList.TaskStore.DeleteTodo` | src/components/ToDoList.jsx:48-50 | an in-range index is removed with order kept, an out-of-range one changes nothing; `editIndex` is not adjusted |
| `ToDoList.TaskStore.StartEditing` | src/components/ToDoList.jsx:53-56 | needs an in-range index; afterwards `editIndex` is that index, `editText` is its text, and the list is unchanged |
| `ToDoList.TaskStore.SaveEdit` | src/components/ToDoList.jsx:59-65 | the buffer replaces the text at `editIndex`, keeping its flag and every other task; with no edit the list is unchanged; afterwards no edit and an empty buffer |
| `ToDoList.TaskStore.SetFilter` | src/components/ToDoList.jsx:86-88 | the filter buttons change only the filter |
| `ToDoList.TaskStore.SetEditText` | src/components/ToDoList.jsx:99 | typing in the edit field changes only the buffer |
| `ToDoList.TaskStore.ExpireError` | src/components/ToDoList.jsx:34 | the timer callback clears the error and changes nothing else |
| `ToDoList.TaskStore.FilteredTodos` | src/components/ToDoList.jsx:68-72 | the view is an order-preserving subsequence of the list that holds each task passing the current filter exactly as often as the list does, and no other task |
| `ToDoForm.Submission` | src/components/ToDoForm.jsx:14-15 | input is forwarded iff it holds a non-whitespace character, and it is forwarded untrimmed |
| `ToDoForm.SubmissionKeepsNoBlankTexts` | src/components/ToDoForm.jsx:14-15 | everything the form adds is non-blank, so a list of non-blank texts stays so |
| `ToDoForm.SubmissionIsNotTrimmed` | src/components/ToDoForm.jsx:14-15 | `" milk "` is forwarded and stored with its surrounding spaces |
| `ToDoForm.Form.constructor` | src/components/ToDoForm.jsx:8 | the input field starts empty |
| `ToDoForm.Form.SetInputValue` | src/components/ToDoForm.jsx:25 | typing sets the input value |
| `ToDoForm.Form.HandleSubmit` | src/components/ToDoForm.jsx:12-18 | blank input changes nothing; otherwise `addTodo` runs on the untrimmed input (append or duplicate error) and the field is cleared, even after a rejection |

## Left out

- Local-storage I/O and JSON encoding (src/components/ToDoList.jsx:15-16, 25-27): the slot is a field holding the decoded list. `Valid()` says it equals `todos` after every operation. The constructor takes the stored list as already decoded (`None` when nothing is stored). So it does not model a malformed value, which makes `JSON.parse` throw, nor a stored `"null"`, which decodes to `null`.
- The 2-second delay of `setTimeout` (src/components/ToDoList.jsx:34): there is no clock. The callback is the explicit event `ExpireError`, and nothing forces it to happen.
- React mechanics: `useState`/`useEffect` scheduling, batching, re-rendering and stale closures. Each operation runs on the current state, one at a time.
- `e.preventDefault()` (src/components/ToDoForm.jsx:13): browser event handling.
- Rendering: src/components/ToDo.jsx (it only picks the `'completed'` CSS class), src/App.js (a wrapper) and the JSX markup. The filtered-row-to-position hand-off is stated by `Tasks.ViewRowIsNotListPosition` only.
- `Text.LowerChar`: lowers only the ASCII letters `A`-`Z`. Full Unicode `toLowerCase` (including case mappings that change length) is not modelled.
- Strings are sequences of Unicode scalar values, not UTF-16 code units as in JavaScript.
