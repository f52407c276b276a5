/**
 * The task records and the pure array transforms the ToDoList component
 * builds its new `todos` arrays with (`some`, spread, `map`, `filter`), each
 * with the facts the store's operations rely on.
 */
module Tasks {
  import opened Wrappers
  import opened Text

  /** One entry of the list: `{ text, completed }`. Identity is the position. */
  datatype Task = Task(text: string, completed: bool)

  /** No two tasks carry case-insensitively equal texts. */
  predicate DistinctIgnoringCase(todos: seq<Task>)
  {
    forall i, j :: 0 <= i < j < |todos| ==> !SameText(todos[i].text, todos[j].text)
  }

  /** Every task text holds a non-whitespace character. */
  predicate NoBlankTexts(todos: seq<Task>)
  {
    forall i :: 0 <= i < |todos| ==> !IsBlank(todos[i].text)
  }

  // ---------------------------------------------------------------------------
  // addTodo: `todos.some(...)` followed by `[...todos, { text, completed: false }]`

  /** `todos.some(todo => todo.text.toLowerCase() === text.toLowerCase())`. */
  function ContainsIgnoringCase(todos: seq<Task>, text: string): (b: bool)
    ensures b <==> exists i :: 0 <= i < |todos| && SameText(todos[i].text, text)
  {
    if todos == [] then false
    else if SameText(todos[0].text, text) then true
    else
      var b := ContainsIgnoringCase(todos[1..], text);
      assert b ==> exists i :: 0 <= i < |todos| && SameText(todos[i].text, text) by {
        if b {
          var i :| 0 <= i < |todos[1..]| && SameText(todos[1..][i].text, text);
          assert todos[i + 1] == todos[1..][i];
        }
      }
      assert (exists i :: 0 <= i < |todos| && SameText(todos[i].text, text)) ==> b by {
        if exists i :: 0 <= i < |todos| && SameText(todos[i].text, text) {
          var i :| 0 <= i < |todos| && SameText(todos[i].text, text);
          assert i != 0;
          assert todos[1..][i - 1] == todos[i];
        }
      }
      b
  }

  /** The list `addTodo(text)` leaves behind, or `None` when it rejects `text`
      as a case-insensitive duplicate. */
  function AddTask(todos: seq<Task>, text: string): (r: Option<seq<Task>>)
    ensures r.None? <==> exists i :: 0 <= i < |todos| && SameText(todos[i].text, text)
    ensures r.Some? ==> |r.value| == |todos| + 1 && r.value[..|todos|] == todos
    ensures r.Some? ==> r.value[|todos|] == Task(text, false)
  {
    if ContainsIgnoringCase(todos, text) then None else Some(todos + [Task(text, false)])
  }

  /** Adding keeps the list free of case-insensitive duplicates. */
  lemma AddPreservesDistinct(todos: seq<Task>, text: string)
    requires DistinctIgnoringCase(todos)
    ensures AddTask(todos, text).Some? ==> DistinctIgnoringCase(AddTask(todos, text).value)
  {
  }

  /** Once a text is in the list, adding it again in any letter case is rejected. */
  lemma AddAgainRejected(todos: seq<Task>, text: string, again: string)
    requires AddTask(todos, text).Some?
    requires SameText(text, again)
    ensures AddTask(AddTask(todos, text).value, again).None?
  {
  }

  /** Adding a non-blank text keeps every text non-blank. */
  lemma AddPreservesNoBlankTexts(todos: seq<Task>, text: string)
    requires NoBlankTexts(todos) && !IsBlank(text)
    ensures AddTask(todos, text).Some? ==> NoBlankTexts(AddTask(todos, text).value)
  {
  }

  // ---------------------------------------------------------------------------
  // toggleComplete and saveEdit: `todos.map((todo, i) => i === index ? f(todo) : todo)`

  /** The positional map both `toggleComplete` and `saveEdit` use: `f` is
      applied to the task at `index` and to no other. */
  function UpdateAt(todos: seq<Task>, index: int, f: Task -> Task): (r: seq<Task>)
    ensures |r| == |todos|
    ensures forall i :: 0 <= i < |todos| ==>
      r[i] == if i == index then f(todos[i]) else todos[i]
  {
    if todos == [] then []
    else [if index == 0 then f(todos[0]) else todos[0]] + UpdateAt(todos[1..], index - 1, f)
  }

  function Flip(t: Task): Task
  {
    t.(completed := !t.completed)
  }

  /** `toggleComplete(index)`'s new list: same length and texts, `completed`
      flipped at `index`, every other task as it was. */
  function Toggled(todos: seq<Task>, index: int): (r: seq<Task>)
    ensures |r| == |todos|
    ensures forall i :: 0 <= i < |todos| ==> r[i].text == todos[i].text
    ensures 0 <= index < |todos| ==> r[index].completed == !todos[index].completed
    ensures forall i :: 0 <= i < |todos| && i != index ==> r[i] == todos[i]
  {
    UpdateAt(todos, index, Flip)
  }

  /** `saveEdit()`'s new list when the edit targets position `index`: only
      that task's text is replaced, its `completed` flag and every other task
      stay as they were; out of range, nothing changes. */
  function WithTextAt(todos: seq<Task>, index: int, text: string): (r: seq<Task>)
    ensures |r| == |todos|
    ensures 0 <= index < |todos| ==> r[index] == Task(text, todos[index].completed)
    ensures forall i :: 0 <= i < |todos| && i != index ==> r[i] == todos[i]
    ensures index < 0 || index >= |todos| ==> r == todos
  {
    UpdateAt(todos, index, (t: Task) => t.(text := text))
  }

  /** Toggling the same position twice restores the list. */
  lemma ToggleTwice(todos: seq<Task>, index: int)
    ensures Toggled(Toggled(todos, index), index) == todos
  {
  }

  /** An out-of-range position toggles nothing. */
  lemma ToggleOutOfRange(todos: seq<Task>, index: int)
    requires index < 0 || index >= |todos|
    ensures Toggled(todos, index) == todos
  {
  }

  /** Toggling keeps the list free of case-insensitive duplicates. */
  lemma TogglePreservesDistinct(todos: seq<Task>, index: int)
    requires DistinctIgnoringCase(todos)
    ensures DistinctIgnoringCase(Toggled(todos, index))
  {
  }

  /** `saveEdit` does not check for duplicates: editing the second of two
      distinct tasks to the first one's text in another case breaks the invariant. */
  lemma EditMayBreakDistinct()
    ensures DistinctIgnoringCase([Task("a", false), Task("b", false)])
    ensures !DistinctIgnoringCase(WithTextAt([Task("a", false), Task("b", false)], 1, "A"))
  {
    var before := [Task("a", false), Task("b", false)];
    assert ToLower("a") == "a" && ToLower("b") == "b";
    var after := WithTextAt(before, 1, "A");
    assert after[0] == Task("a", false) && after[1] == Task("A", false);
    assert SameText(after[0].text, after[1].text);
  }

  // ---------------------------------------------------------------------------
  // deleteTodo: `todos.filter((_, i) => i !== index)`

  /** The positional filter `deleteTodo(index)` applies. */
  function Deleted(todos: seq<Task>, index: int): (r: seq<Task>)
    ensures 0 <= index < |todos| ==> r == todos[..index] + todos[index + 1..]
    ensures index < 0 || index >= |todos| ==> r == todos
  {
    if todos == [] then []
    else
      var rest := Deleted(todos[1..], index - 1);
      if index == 0 then rest
      else
        assert 0 < index < |todos| ==> todos[1..][..index - 1] == todos[1..index];
        assert 0 < index < |todos| ==> todos[1..][index..] == todos[index + 1..];
        [todos[0]] + rest
  }

  /** Deleting keeps the list free of case-insensitive duplicates. */
  lemma DeletePreservesDistinct(todos: seq<Task>, index: int)
    requires DistinctIgnoringCase(todos)
    ensures DistinctIgnoringCase(Deleted(todos, index))
  {
  }

  lemma DeletePreservesNoBlankTexts(todos: seq<Task>, index: int)
    requires NoBlankTexts(todos)
    ensures NoBlankTexts(Deleted(todos, index))
  {
  }

  // ---------------------------------------------------------------------------
  // filteredTodos: `todos.filter(todo => filter === 'completed' ? ... : ...)`

  /** Whether a task passes the filter: `'completed'` and `'incomplete'` select
      by flag, every other filter value lets all tasks through. */
  function Shown(t: Task, filter: string): (b: bool)
    ensures b <==> (filter != "completed" || t.completed) && (filter != "incomplete" || !t.completed)
  {
    if filter == "completed" then t.completed
    else if filter == "incomplete" then !t.completed
    else true
  }

  /** The `filteredTodos` projection. */
  function Visible(todos: seq<Task>, filter: string): (r: seq<Task>)
    ensures |r| <= |todos|
    ensures forall k :: 0 <= k < |r| ==> Shown(r[k], filter)
    ensures forall t :: t in r <==> t in todos && Shown(t, filter)
    ensures forall t :: multiset(r)[t] == if Shown(t, filter) then multiset(todos)[t] else 0
  {
    if todos == [] then []
    else
      assert todos == [todos[0]] + todos[1..];
      (if Shown(todos[0], filter) then [todos[0]] else []) + Visible(todos[1..], filter)
  }

  /** `a` is `b` with some elements left out, the rest in their original order. */
  predicate IsSubsequence<T(==)>(a: seq<T>, b: seq<T>)
    decreases |b|
  {
    if a == [] then true
    else if b == [] then false
    else if a[0] == b[0] then IsSubsequence(a[1..], b[1..])
    else IsSubsequence(a, b[1..])
  }

  lemma {:induction false} SubsequenceDropFirst<T>(a: seq<T>, b: seq<T>)
    requires a != [] && IsSubsequence(a, b)
    ensures IsSubsequence(a[1..], b)
    decreases |b|
  {
    if a[1..] != [] && b != [] {
      // from IsSubsequence(a, b), a[1..] is a subsequence of b[1..] ...
      if a[0] != b[0] {
        SubsequenceDropFirst(a, b[1..]);
      }
      // ... and so is a[2..], which is what b needs when a[1] matches b[0]
      if a[1..][0] == b[0] {
        SubsequenceDropFirst(a[1..], b[1..]);
      }
    }
  }

  lemma {:induction false} SubsequenceSkip<T>(a: seq<T>, x: T, b: seq<T>)
    requires IsSubsequence(a, b)
    ensures IsSubsequence(a, [x] + b)
  {
    var xb := [x] + b;
    assert xb[1..] == b;
    if a != [] && a[0] == x {
      SubsequenceDropFirst(a, b);
    }
  }

  /** The projection keeps tasks in their order and never invents one. */
  lemma {:induction false} VisibleIsSubsequence(todos: seq<Task>, filter: string)
    ensures IsSubsequence(Visible(todos, filter), todos)
    decreases |todos|
  {
    if todos != [] {
      VisibleIsSubsequence(todos[1..], filter);
      assert todos == [todos[0]] + todos[1..];
      if Shown(todos[0], filter) {
        var r := Visible(todos, filter);
        assert r[0] == todos[0] && r[1..] == Visible(todos[1..], filter);
      } else {
        assert Visible(todos, filter) == Visible(todos[1..], filter);
        SubsequenceSkip(Visible(todos[1..], filter), todos[0], todos[1..]);
      }
    }
  }

  /** `'all'`, or any value other than `'completed'` and `'incomplete'`,
      shows the whole list unchanged. */
  lemma {:induction false} VisibleUnfiltered(todos: seq<Task>, filter: string)
    requires filter != "completed" && filter != "incomplete"
    ensures Visible(todos, filter) == todos
    decreases |todos|
  {
    if todos != [] {
      var rest := todos[1..];
      VisibleUnfiltered(rest, filter);
      assert Shown(todos[0], filter);
      calc {
        Visible(todos, filter);
        [todos[0]] + Visible(rest, filter);
        [todos[0]] + rest;
        todos;
      }
    }
  }

  /** The completed and incomplete views split the list: together they hold
      every task exactly as often as the list does. */
  lemma VisibleSplit(todos: seq<Task>)
    ensures multiset(Visible(todos, "completed")) + multiset(Visible(todos, "incomplete"))
      == multiset(todos)
    ensures |Visible(todos, "completed")| + |Visible(todos, "incomplete")| == |todos|
  {
    var done, open := Visible(todos, "completed"), Visible(todos, "incomplete");
    assert forall t :: (multiset(done) + multiset(open))[t] == multiset(todos)[t];
    assert multiset(done) + multiset(open) == multiset(todos);
  }

  /** The view hands row positions of the filtered list to operations that
      index the full list: with filter `'completed'` the only row shown is
      task "b", yet toggling row 0 flips the hidden task "a". */
  lemma ViewRowIsNotListPosition()
    ensures Visible([Task("a", false), Task("b", true)], "completed") == [Task("b", true)]
    ensures Toggled([Task("a", false), Task("b", true)], 0) == [Task("a", true), Task("b", true)]
  {
  }
}
