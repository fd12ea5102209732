/** The to-do view: three state cells (the task list, the draft in the input
    box and the selected filter) and the handlers that update them. Every
    request to the task service is confirmed before anything changes: the
    service's answer comes in as an `Outcome` argument, and a failed answer,
    which the view only logs, leaves all three cells as they were. */
module ToDoView {
  import opened Tasks
  import opened Draft

  datatype Option<T> = None | Some(value: T)

  /** The task service's answer to one request. */
  datatype Outcome<T> = Success(value: T) | Failure

  /** The `text` of the create request the add handler sends for a draft,
      or `None` when the handler refuses the draft and sends nothing. The
      text is the draft as typed, not its trimmed form. */
  function CreateRequest(draft: string): (body: Option<string>)
    ensures body.None? <==> forall i :: 0 <= i < |draft| ==> IsWhitespace(draft[i])
    ensures body.Some? ==> body.value == draft
  {
    if IsBlank(draft) then None else Some(draft)
  }

  class ToDo {
    var tasks: seq<Task>
    var newTask: string
    var filter: Filter

    /** The view as first rendered, once the fetch of the whole list has
        answered: the fetched list on success, and the initial empty list
        when the fetch failed. */
    constructor Mount(response: Outcome<seq<Task>>)
      ensures tasks == (if response.Success? then response.value else [])
      ensures newTask == "" && filter == All
    {
      tasks := if response.Success? then response.value else [];
      newTask := "";
      filter := All;
    }

    /** Typing into the input box replaces the draft. */
    method Edit(text: string)
      modifies this`newTask
      ensures newTask == text
      ensures tasks == old(tasks) && filter == old(filter)
    {
      newTask := text;
    }

    /** One of the three filter buttons: only the filter changes. */
    method SetFilter(f: Filter)
      modifies this`filter
      ensures filter == f
      ensures tasks == old(tasks) && newTask == old(newTask)
    {
      filter := f;
    }

    /** The add handler. `request` is the text sent to the service, `None`
        when the draft is blank and nothing is sent; `response` is the
        service's answer, which only matters when a request was sent. */
    method AddTask(response: Outcome<Task>) returns (request: Option<string>)
      modifies this`tasks, this`newTask
      ensures request == CreateRequest(old(newTask))
      ensures request.Some? && response.Success? ==>
                tasks == old(tasks) + [response.value] && newTask == ""
      ensures request.None? || response.Failure? ==>
                tasks == old(tasks) && newTask == old(newTask)
      ensures filter == old(filter)
    {
      request := CreateRequest(newTask);
      if request.None? {
        return;
      }
      if response.Success? {
        tasks := tasks + [response.value];
        newTask := "";
      }
    }

    /** The checkbox handler. `requested` is the `completed` flag sent to the
        service, the inverse of the one shown; on success every entry with
        the id is replaced by the service's copy. */
    method ToggleComplete(id: int, completed: bool, response: Outcome<Task>) returns (requested: bool)
      modifies this`tasks
      ensures requested == !completed
      ensures tasks == if response.Success? then ReplaceId(old(tasks), id, response.value) else old(tasks)
      ensures newTask == old(newTask) && filter == old(filter)
    {
      requested := !completed;
      if response.Success? {
        tasks := ReplaceId(tasks, id, response.value);
      }
    }

    /** The delete button: on success every entry with the id is dropped. */
    method DeleteTask(id: int, response: Outcome<()>)
      modifies this`tasks
      ensures tasks == if response.Success? then RemoveId(old(tasks), id) else old(tasks)
      ensures newTask == old(newTask) && filter == old(filter)
    {
      if response.Success? {
        tasks := RemoveId(tasks, id);
      }
    }
  }
}
