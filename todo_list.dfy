/**
 * The state of the ToDoList component and the operations that replace it.
 * Each operation takes a position in the FULL `todos` list, as the component's
 * functions do; the view passes row positions of the filtered list
 * (see Tasks.ViewRowIsNotListPosition).
 */
module ToDoList {
  import opened Wrappers
  import opened Tasks

  /** The message `addTodo` shows when it rejects a duplicate. */
  const DuplicateError: string := "Task already exists!"

  /** The filter the component starts with. */
  const InitialFilter: string := "all"

  class TaskStore {
    var todos: seq<Task>
    var filter: string
    var error: string
    /** The position being edited; `None` is the source's `null`. It is not
        adjusted by deletions, so it may be out of range. */
    var editIndex: Option<nat>
    var editText: string
    /** The local-storage slot under the key "todos", as the list it decodes to. */
    var slot: seq<Task>

    /** The persistence effect has written the current list. */
    ghost predicate Valid()
      reads this
    {
      slot == todos
    }

    /** Mounting the component: the list is read from the slot (`None` when
        nothing usable is stored), then written back by the effect. */
    constructor (stored: Option<seq<Task>>)
      ensures Valid()
      ensures todos == (if stored.Some? then stored.value else [])
      ensures filter == InitialFilter && error == ""
      ensures editIndex == None && editText == ""
    {
      todos := if stored.Some? then stored.value else [];
      filter := InitialFilter;
      error := "";
      editIndex := None;
      editText := "";
      slot := todos;
    }

    /** Mounting the component again: what it reads back from the slot is the
        list as it stands, with the transient state reset. */
    method Reload() returns (next: TaskStore)
      requires Valid()
      ensures fresh(next) && next.Valid()
      ensures next.todos == todos
      ensures next.filter == InitialFilter && next.error == ""
      ensures next.editIndex == None && next.editText == ""
    {
      next := new TaskStore(Some(slot));
    }

    /** `addTodo(text)`: appends `{ text, completed: false }` unless some task's
        text matches case-insensitively (`AddTask` is `None` exactly then), in
        which case the list is left alone and the error is set. */
    method AddTodo(text: string)
      requires Valid()
      modifies this
      ensures Valid()
      ensures AddTask(old(todos), text).None? ==> todos == old(todos) && error == DuplicateError
      ensures AddTask(old(todos), text).Some? ==>
        todos == old(todos) + [Task(text, false)] && error == old(error)
      ensures DistinctIgnoringCase(old(todos)) ==> DistinctIgnoringCase(todos)
      ensures filter == old(filter) && editIndex == old(editIndex) && editText == old(editText)
    {
      if DistinctIgnoringCase(todos) {
        AddPreservesDistinct(todos, text);
      }
      match AddTask(todos, text)
      case None =>
        error := DuplicateError;
      case Some(next) =>
        todos := next;
        slot := todos;
    }

    /** `toggleComplete(index)`: flips `completed` at `index` only; an
        out-of-range index changes nothing. */
    method ToggleComplete(index: int)
      requires Valid()
      modifies this
      ensures Valid()
      ensures todos == Toggled(old(todos), index)
      ensures |todos| == |old(todos)|
      ensures forall i :: 0 <= i < |todos| ==> todos[i].text == old(todos)[i].text
      ensures forall i :: 0 <= i < |todos| ==>
        todos[i].completed == (if i == index then !old(todos)[i].completed else old(todos)[i].completed)
      ensures DistinctIgnoringCase(old(todos)) ==> DistinctIgnoringCase(todos)
      ensures filter == old(filter) && error == old(error)
      ensures editIndex == old(editIndex) && editText == old(editText)
    {
      if DistinctIgnoringCase(todos) {
        TogglePreservesDistinct(todos, index);
      }
      todos := Toggled(todos, index);
      slot := todos;
    }

    /** `deleteTodo(index)`: removes the task at `index`, keeping the order of
        the rest; an out-of-range index changes nothing. The edit position is
        left as it was. */
    method DeleteTodo(index: int)
      requires Valid()
      modifies this
      ensures Valid()
      ensures 0 <= index < |old(todos)| ==> todos == old(todos)[..index] + old(todos)[index + 1..]
      ensures index < 0 || index >= |old(todos)| ==> todos == old(todos)
      ensures DistinctIgnoringCase(old(todos)) ==> DistinctIgnoringCase(todos)
      ensures filter == old(filter) && error == old(error)
      ensures editIndex == old(editIndex) && editText == old(editText)
    {
      if DistinctIgnoringCase(todos) {
        DeletePreservesDistinct(todos, index);
      }
      todos := Deleted(todos, index);
      slot := todos;
    }

    /** `startEditing(index)`: the source reads `todos[index].text`, so the
        index must be in range. */
    method StartEditing(index: int)
      requires Valid()
      requires 0 <= index < |todos|
      modifies this
      ensures Valid()
      ensures todos == old(todos) && filter == old(filter) && error == old(error)
      ensures editIndex == Some(index) && editText == todos[index].text
    {
      editIndex := Some(index);
      editText := todos[index].text;
    }

    /** `saveEdit()`: writes the edit buffer into the task at `editIndex`,
        keeping its `completed` flag and every other task; no duplicate, blank
        or range check. Afterwards no edit is in progress. */
    method SaveEdit()
      requires Valid()
      modifies this
      ensures Valid()
      ensures old(editIndex).None? ==> todos == old(todos)
      ensures old(editIndex).Some? ==> todos == WithTextAt(old(todos), old(editIndex).value, old(editText))
      ensures |todos| == |old(todos)|
      ensures forall i :: 0 <= i < |todos| ==>
        todos[i] == if old(editIndex) == Some(i) then Task(old(editText), old(todos)[i].completed)
                    else old(todos)[i]
      ensures editIndex == None && editText == ""
      ensures filter == old(filter) && error == old(error)
    {
      match editIndex {
        case None =>
        case Some(i) =>
          todos := WithTextAt(todos, i, editText);
          slot := todos;
      }
      editIndex := None;
      editText := "";
    }

    /** A filter button: `setFilter(value)`. */
    method SetFilter(value: string)
      requires Valid()
      modifies this
      ensures Valid()
      ensures filter == value
      ensures todos == old(todos) && error == old(error)
      ensures editIndex == old(editIndex) && editText == old(editText)
    {
      filter := value;
    }

    /** Typing in the edit field: `setEditText(value)`. */
    method SetEditText(value: string)
      requires Valid()
      modifies this
      ensures Valid()
      ensures editText == value
      ensures todos == old(todos) && filter == old(filter)
      ensures error == old(error) && editIndex == old(editIndex)
    {
      editText := value;
    }

    /** The timer callback `addTodo` schedules after a rejection: clears the error. */
    method ExpireError()
      requires Valid()
      modifies this
      ensures Valid()
      ensures error == ""
      ensures todos == old(todos) && filter == old(filter)
      ensures editIndex == old(editIndex) && editText == old(editText)
    {
      error := "";
    }

    /** `filteredTodos`: the tasks the current filter shows, in list order. */
    function FilteredTodos(): (r: seq<Task>)
      reads this
      ensures IsSubsequence(r, todos)
      ensures forall k :: 0 <= k < |r| ==> Shown(r[k], filter)
      ensures forall t :: t in todos && Shown(t, filter) ==> t in r
      ensures forall t :: multiset(r)[t] == if Shown(t, filter) then multiset(todos)[t] else 0
    {
      VisibleIsSubsequence(todos, filter);
      Visible(todos, filter)
    }
  }
}
