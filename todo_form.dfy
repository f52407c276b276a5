/**
 * The ToDoForm component: an input field whose submit handler forwards
 * non-blank input, untrimmed, to the store's `addTodo` and clears the field.
 */
module ToDoForm {
  import opened Wrappers
  import opened Text
  import opened Tasks
  import ToDoList

  /** The guard `if (inputValue.trim())`: the text handed to `addTodo`, or
      `None` when the input is empty or all whitespace. */
  function Submission(input: string): (r: Option<string>)
    ensures r.Some? <==> exists i :: 0 <= i < |input| && !IsWhitespace(input[i])
    ensures r.Some? ==> r.value == input
  {
    if Trim(input) != [] then Some(input) else None
  }

  /** Whatever the form forwards is non-blank, so adding it keeps a list of
      non-blank texts free of blank ones. */
  lemma SubmissionKeepsNoBlankTexts(todos: seq<Task>, input: string)
    requires NoBlankTexts(todos)
    ensures Submission(input).Some? && AddTask(todos, input).Some? ==>
      NoBlankTexts(AddTask(todos, input).value)
  {
    if Submission(input).Some? {
      AddPreservesNoBlankTexts(todos, input);
    }
  }

  /** The stored text is the input as typed: surrounding spaces survive. */
  lemma SubmissionIsNotTrimmed()
    ensures Submission(" milk ") == Some(" milk ")
    ensures AddTask([], " milk ") == Some([Task(" milk ", false)])
  {
    assert !IsWhitespace(" milk "[1]);
  }

  class Form {
    var inputValue: string

    constructor ()
      ensures inputValue == ""
    {
      inputValue := "";
    }

    /** Typing in the field: `setInputValue(value)`. */
    method SetInputValue(value: string)
      modifies this
      ensures inputValue == value
    {
      inputValue := value;
    }

    /** `handleSubmit`: blank input changes nothing; otherwise the untrimmed
        input goes to `addTodo` and the field is cleared, even when the store
        rejects the text as a duplicate. */
    method HandleSubmit(store: ToDoList.TaskStore)
      requires store.Valid()
      modifies this, store
      ensures store.Valid()
      ensures IsBlank(old(inputValue)) ==> inputValue == old(inputValue) && unchanged(store)
      ensures !IsBlank(old(inputValue)) ==> inputValue == ""
      ensures !IsBlank(old(inputValue)) && AddTask(old(store.todos), old(inputValue)).None? ==>
        store.todos == old(store.todos) && store.error == ToDoList.DuplicateError
      ensures !IsBlank(old(inputValue)) && AddTask(old(store.todos), old(inputValue)).Some? ==>
        store.todos == old(store.todos) + [Task(old(inputValue), false)] && store.error == old(store.error)
      ensures store.filter == old(store.filter)
      ensures store.editIndex == old(store.editIndex) && store.editText == old(store.editText)
    {
      match Submission(inputValue) {
        case None =>
        case Some(text) =>
          assert text == inputValue && !IsBlank(text);
          store.AddTodo(text);
          inputValue := "";
      }
    }
  }
}
