/**
 The task manager component as a state machine over its five state slots.
 Each handler is a method that updates the slots as the component does; the
 request it sends is not made here: its outcome is a parameter.
 */
module TaskManagerState {
  import opened Tasks

  /** The outcome of one request: the response data, or a caught failure. */
  datatype Response<+T> = Ok(data: T) | Fail

  /** The `type` of an alert; it is empty until the first outcome is reported. */
  datatype AlertKind = NoKind | Error | Success

  datatype Alert = Alert(message: string, kind: AlertKind)

  const NoAlert := Alert("", NoKind)
  const LoadFailedAlert := Alert("Failed to load tasks. Please try again later.", Error)
  const RequiredAlert := Alert("All fields are required.", Error)
  const AddedAlert := Alert("Task added successfully!", Success)
  const AddFailedAlert := Alert("Error adding task. Please try again.", Error)
  const UpdatedAlert := Alert("Task updated successfully!", Success)
  const UpdateFailedAlert := Alert("Error updating task. Please try again.", Error)
  const DeletedAlert := Alert("Task deleted successfully!", Success)
  const DeleteFailedAlert := Alert("Error deleting task. Please try again.", Error)

  class TaskManager {
    var tasks: seq<Task>
    var newTask: Draft
    var editingTaskId: Option<Id>
    var editingTask: Draft
    var alert: Alert

    /**
     With no edit target there is no pending edit draft: the draft is only
     filled together with a target and only cleared together with it.
     */
    ghost predicate Valid()
      reads this
    {
      editingTaskId == None ==> editingTask == EmptyDraft
    }

    /** The form is in edit mode when the edit target is truthy. */
    predicate InEditMode()
      reads this
    {
      Truthy(editingTaskId)
    }

    /** The value the form's input for `f` shows: the edit draft in edit mode, the create draft otherwise. */
    function Shown(f: Field): string
      reads this
    {
      if InEditMode() then editingTask.Get(f) else newTask.Get(f)
    }

    /** The initial state: no tasks, empty drafts, no edit target, no alert. */
    constructor ()
      ensures Valid() && !InEditMode()
      ensures tasks == [] && newTask == EmptyDraft
      ensures editingTaskId == None && editingTask == EmptyDraft
      ensures alert == NoAlert
    {
      tasks := [];
      newTask := EmptyDraft;
      editingTaskId := None;
      editingTask := EmptyDraft;
      alert := NoAlert;
    }

    /** Neither draft nor the edit target moved. */
    twostate predicate FormUnchanged()
      reads this
    {
      newTask == old(newTask) && editingTaskId == old(editingTaskId) &&
      editingTask == old(editingTask)
    }

    /**
     The initial fetch: on success the list becomes the response data, or the
     empty list when the response carries none; on failure only the alert changes.
     */
    method Load(response: Response<Option<seq<Task>>>)
      requires Valid()
      modifies this
      ensures Valid() && FormUnchanged()
      ensures response.Ok? && response.data.Some? ==>
                tasks == response.data.value && alert == old(alert)
      ensures response.Ok? && response.data.None? ==>
                tasks == [] && alert == old(alert)
      ensures response.Fail? ==> tasks == old(tasks) && alert == LoadFailedAlert
    {
      match response
      case Ok(data) =>
        tasks := if data.Some? then data.value else [];
      case Fail =>
        alert := LoadFailedAlert;
    }

    /** What `AddTask` does, for it and for the submit button that dispatches to it. */
    twostate predicate AddTaskDone(response: Response<Task>, requested: bool)
      reads this
    {
      editingTaskId == old(editingTaskId) && editingTask == old(editingTask) &&
      requested == IsComplete(old(newTask)) &&
      (!requested ==>
        tasks == old(tasks) && newTask == old(newTask) && alert == RequiredAlert) &&
      (requested && response.Ok? ==>
        tasks == Appended(old(tasks), response.data) && newTask == EmptyDraft &&
        alert == AddedAlert) &&
      (requested && response.Fail? ==>
        tasks == old(tasks) && newTask == old(newTask) && alert == AddFailedAlert)
    }

    /**
     Create: an incomplete draft is refused before any request (`requested`
     is false); a created task is appended and the create draft is cleared;
     a failed request keeps the draft for another try.
     */
    method AddTask(response: Response<Task>) returns (requested: bool)
      requires Valid()
      modifies this
      ensures Valid() && AddTaskDone(response, requested)
    {
      if !IsComplete(newTask) {
        alert := RequiredAlert;
        return false;
      }
      requested := true;
      match response
      case Ok(created) =>
        tasks := Appended(tasks, created);
        newTask := EmptyDraft;
        alert := AddedAlert;
      case Fail =>
        alert := AddFailedAlert;
    }

    /** What `UpdateTask` does, for it and for the submit button that dispatches to it. */
    twostate predicate UpdateTaskDone(response: Response<Task>, requested: bool)
      reads this
    {
      newTask == old(newTask) &&
      requested == IsComplete(old(editingTask)) &&
      (!requested ==>
        tasks == old(tasks) && editingTaskId == old(editingTaskId) &&
        editingTask == old(editingTask) && alert == RequiredAlert) &&
      (requested && response.Ok? ==>
        tasks == Replaced(old(tasks), old(editingTaskId), response.data) &&
        editingTaskId == None && editingTask == EmptyDraft && alert == UpdatedAlert) &&
      (requested && response.Fail? ==>
        tasks == old(tasks) && editingTaskId == old(editingTaskId) &&
        editingTask == old(editingTask) && alert == UpdateFailedAlert)
    }

    /**
     Update: the same completeness check as a create; the returned task
     replaces every entry whose identifier is the edit target and edit mode
     ends; a failed request stays in edit mode with the draft intact.
     */
    method UpdateTask(response: Response<Task>) returns (requested: bool)
      requires Valid()
      modifies this
      ensures Valid() && UpdateTaskDone(response, requested)
      ensures old(editingTaskId) == None ==> !requested
    {
      if !IsComplete(editingTask) {
        alert := RequiredAlert;
        return false;
      }
      requested := true;
      match response
      case Ok(updated) =>
        tasks := Replaced(tasks, editingTaskId, updated);
        editingTaskId := None;
        editingTask := EmptyDraft;
        alert := UpdatedAlert;
      case Fail =>
        alert := UpdateFailedAlert;
    }

    /**
     Delete: no client-side check; on success every entry with identifier
     `id` is dropped, the others keep their order; the form is untouched.
     */
    method DeleteTask(id: Id, response: Response<()>)
      requires Valid()
      modifies this
      ensures Valid() && FormUnchanged()
      ensures response.Ok? ==> tasks == Removed(old(tasks), id) && alert == DeletedAlert
      ensures response.Fail? ==> tasks == old(tasks) && alert == DeleteFailedAlert
    {
      match response
      case Ok(_) =>
        tasks := Removed(tasks, id);
        alert := DeletedAlert;
      case Fail =>
        alert := DeleteFailedAlert;
    }

    /**
     The Edit button of a row: `t` becomes the edit target and its three
     fields overwrite the edit draft; the list, the create draft and the
     alert stay. A task whose identifier is "" leaves the form in create mode.
     */
    method EditClick(t: Task)
      requires Valid()
      modifies this
      ensures Valid()
      ensures editingTaskId == Some(t.id) && editingTask == DraftOf(t)
      ensures InEditMode() <==> t.id != ""
      ensures tasks == old(tasks) && newTask == old(newTask) && alert == old(alert)
    {
      editingTaskId := Some(t.id);
      editingTask := DraftOf(t);
    }

    /**
     Typing `v` into the input for `f`: in edit mode only that field of the
     edit draft changes, otherwise only that field of the create draft.
     */
    method EditField(f: Field, v: string)
      requires Valid()
      modifies this
      ensures Valid()
      ensures old(InEditMode()) ==>
                editingTask == old(editingTask).With(f, v) && newTask == old(newTask)
      ensures !old(InEditMode()) ==>
                newTask == old(newTask).With(f, v) && editingTask == old(editingTask)
      ensures tasks == old(tasks) && editingTaskId == old(editingTaskId) && alert == old(alert)
      ensures InEditMode() == old(InEditMode())
      ensures Shown(f) == v
      ensures forall g :: g != f ==> Shown(g) == old(Shown(g))
    {
      if InEditMode() {
        editingTask := editingTask.With(f, v);
      } else {
        newTask := newTask.With(f, v);
      }
    }

    /** The form's button: Update in edit mode, Add otherwise. */
    method Submit(response: Response<Task>) returns (requested: bool)
      requires Valid()
      modifies this
      ensures Valid()
      ensures old(InEditMode()) ==> UpdateTaskDone(response, requested)
      ensures !old(InEditMode()) ==> AddTaskDone(response, requested)
      ensures requested <==> old(forall f :: Shown(f) != "")
    {
      ghost var shownDraft := if InEditMode() then editingTask else newTask;
      assert (forall f :: Shown(f) != "") <==> IsComplete(shownDraft) by {
        assert forall f :: Shown(f) == shownDraft.Get(f);
      }
      if InEditMode() {
        requested := UpdateTask(response);
      } else {
        requested := AddTask(response);
      }
    }
  }

  /**
   The walk-through of a create, an update and a delete on an empty list,
   with the backend assigning identifier "1".
   */
  method CreateUpdateDeleteScenario()
  {
    var m := new TaskManager();
    m.EditField(Title, "A");
    m.EditField(DueDate, "2024-01-01");
    m.EditField(Description, "d");
    var a := Task("1", "A", "2024-01-01", "d");
    var sent := m.Submit(Ok(a));
    assert sent && m.tasks == [a] && m.alert.kind == Success && m.newTask == EmptyDraft;

    m.EditClick(a);
    assert m.InEditMode() && m.Shown(Title) == "A";
    m.EditField(Title, "B");
    m.EditField(DueDate, "2024-02-02");
    m.EditField(Description, "e");
    var b := Task("1", "B", "2024-02-02", "e");
    sent := m.Submit(Ok(b));
    assert sent;
    ReplacedAt([a], Some("1"), b, 0);
    assert m.tasks == [b] && !m.InEditMode();

    m.DeleteTask("1", Ok(()));
    assert m.tasks == [];
  }

  /** An empty title is refused locally: no request, an error alert, nothing else changes. */
  method EmptyTitleScenario()
  {
    var m := new TaskManager();
    m.EditField(DueDate, "2024-01-01");
    m.EditField(Description, "d");
    var sent := m.Submit(Fail);
    assert !sent && m.alert == RequiredAlert && m.tasks == [];
    assert m.newTask == Draft("", "2024-01-01", "d");
  }
}
