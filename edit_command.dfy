/** EditCommand: merging a descriptor into a task, and editing tasks by index. */
module Edit {
  import opened Wrappers
  import opened Tasks
  import opened ToDo
  import opened Undo
  import opened Commands

  const MESSAGE_EDIT_TASK_SUCCESS := "Edited Task: %1$s"
  const MESSAGE_DUPLICATE_TASK := "This task already exists in the address book."

  /** EditTaskDescriptor: each present field replaces the task's own. */
  datatype EditTaskDescriptor = EditTaskDescriptor(
    title: Option<string>,
    venue: Option<string>,
    startTime: Option<string>,
    endTime: Option<string>,
    urgencyLevel: Option<string>,
    description: Option<string>,
    tags: Option<seq<Tag>>)

  /** The descriptor the no-argument constructor builds: nothing to edit. */
  const NO_EDITS := EditTaskDescriptor(None, None, None, None, None, None, None)

  /** isAnyFieldEdited: at least one of the seven fields is present. */
  function IsAnyFieldEdited(d: EditTaskDescriptor): (r: bool)
    ensures r <==> d != NO_EDITS
  {
    d.title.Some? || d.venue.Some? || d.startTime.Some? || d.endTime.Some?
    || d.urgencyLevel.Some? || d.description.Some? || d.tags.Some?
  }

  /** One editX helper: the descriptor's value if present, else the task's own, else absent. */
  function EditField<T>(edit: Option<T>, original: Option<T>): Option<T>
  {
    if edit.Some? then edit else if original.Some? then original else None
  }

  /** Every field present in d has its value in r. */
  predicate HasEdits(d: EditTaskDescriptor, r: Task)
  {
    && (d.title.Some? ==> r.title == d.title.value)
    && (d.venue.Some? ==> r.venue == d.venue)
    && (d.startTime.Some? ==> r.startTime == d.startTime)
    && (d.endTime.Some? ==> r.endTime == d.endTime)
    && (d.urgencyLevel.Some? ==> r.urgencyLevel == d.urgencyLevel)
    && (d.description.Some? ==> r.description == d.description)
    && (d.tags.Some? ==> r.tags == d.tags.value)
  }

  /** Every field absent from d keeps t's value in r. */
  predicate KeepsUnedited(d: EditTaskDescriptor, t: Task, r: Task)
  {
    && (d.title.None? ==> r.title == t.title)
    && (d.venue.None? ==> r.venue == t.venue)
    && (d.startTime.None? ==> r.startTime == t.startTime)
    && (d.endTime.None? ==> r.endTime == t.endTime)
    && (d.urgencyLevel.None? ==> r.urgencyLevel == t.urgencyLevel)
    && (d.description.None? ==> r.description == t.description)
    && (d.tags.None? ==> r.tags == t.tags)
  }

  /** createEditedTask, through editTitle, editVenue, ... editDescription and the tags rule. */
  function CreateEditedTask(taskToEdit: Task, d: EditTaskDescriptor): (r: Task)
    ensures HasEdits(d, r) && KeepsUnedited(d, taskToEdit, r)
  {
    Task(
      if d.title.Some? then d.title.value else taskToEdit.title,
      EditField(d.venue, taskToEdit.venue),
      EditField(d.startTime, taskToEdit.startTime),
      EditField(d.endTime, taskToEdit.endTime),
      EditField(d.urgencyLevel, taskToEdit.urgencyLevel),
      EditField(d.description, taskToEdit.description),
      if d.tags.Some? then d.tags.value else taskToEdit.tags)
  }

  // ----- Properties of the field merge -----

  /** The two field rules determine the edited task completely. */
  lemma EditedTaskUnique(t: Task, d: EditTaskDescriptor, r: Task)
    requires HasEdits(d, r) && KeepsUnedited(d, t, r)
    ensures r == CreateEditedTask(t, d)
  {
  }

  /** Editing twice with the same descriptor is editing once. */
  lemma EditIdempotent(t: Task, d: EditTaskDescriptor)
    ensures CreateEditedTask(CreateEditedTask(t, d), d) == CreateEditedTask(t, d)
  {
  }

  /** isAnyFieldEdited is false exactly when the descriptor changes no task at all. */
  lemma AnyFieldEditedIffSomeTaskChanges(d: EditTaskDescriptor)
    ensures !IsAnyFieldEdited(d) <==> forall t :: CreateEditedTask(t, d) == t
  {
    if IsAnyFieldEdited(d) {
      var t := ChangedWitness(d);
      assert CreateEditedTask(t, d) != t;
    }
  }

  /** A task that an edited descriptor changes: its edited field holds a different value. */
  lemma ChangedWitness(d: EditTaskDescriptor) returns (t: Task)
    requires IsAnyFieldEdited(d)
    ensures CreateEditedTask(t, d) != t
  {
    t := Task("", None, None, None, None, None, []);
    if d.title.Some? {
      t := t.(title := d.title.value + "?");
      assert |CreateEditedTask(t, d).title| != |t.title|;
    } else if d.venue.Some? {
      t := t.(venue := None);
    } else if d.startTime.Some? {
      t := t.(startTime := None);
    } else if d.endTime.Some? {
      t := t.(endTime := None);
    } else if d.urgencyLevel.Some? {
      t := t.(urgencyLevel := None);
    } else if d.description.Some? {
      t := t.(description := None);
    } else {
      t := t.(tags := d.tags.value + [Tag("")]);
      assert |CreateEditedTask(t, d).tags| != |t.tags|;
    }
  }

  // ----- The execute loop as a function of the to-do list -----

  /**
   * One turn of the execute loop: the task at taskNumber - 1 of the list
   * the index names is edited and handed to updateTask. A position at or
   * beyond the list's size is rejected; a negative one gets past that
   * guard and makes List.get throw.
   */
  function EditOne(l: ToDoList, cat: Task -> PendingChar, ix: TaskIndex, d: EditTaskDescriptor): (r: Result<(ToDoList, Task), CommandResult>)
    ensures var list := l.ListFromChar(ix.taskChar);
      && (ix.taskNumber - 1 >= |list| ==> r == Failure(Failed(InvalidTaskDisplayedIndex)))
      && (ix.taskNumber - 1 < 0 ==> r == Failure(IndexOutOfBounds))
    ensures var list := l.ListFromChar(ix.taskChar);
      0 <= ix.taskNumber - 1 < |list| ==>
        var target := list[ix.taskNumber - 1];
        var edited := CreateEditedTask(target, d);
        && (r.Failure? <==> edited != target && edited in l.ListFromChar(cat(edited)))
        && (r.Failure? ==> r.error == Failed(Text(MESSAGE_DUPLICATE_TASK)))
        && (r.Success? ==> r.value.1 == edited && edited in r.value.0.ListFromChar(cat(edited)))
    ensures r.Success? && Placed(l, cat) ==> Placed(r.value.0, cat)
  {
    var lastShownList := l.ListFromChar(ix.taskChar);
    var filteredTaskListIndex := ix.taskNumber - 1;
    if filteredTaskListIndex >= |lastShownList| then Failure(Failed(InvalidTaskDisplayedIndex))
    else if filteredTaskListIndex < 0 then Failure(IndexOutOfBounds)
    else
      var taskToEdit := lastShownList[filteredTaskListIndex];
      var editedTask := CreateEditedTask(taskToEdit, d);
      var u := Update(l, cat, ix.taskChar, taskToEdit, editedTask);
      if u.None? then Failure(Failed(Text(MESSAGE_DUPLICATE_TASK)))
      else Success((u.value, editedTask))
  }

  /** How the loop ends: every index edited, or stopped by a failure with the state reached. */
  datatype EditRun =
    | Finished(state: ToDoList, edited: seq<Task>)
    | Stopped(state: ToDoList, failure: CommandResult)

  /** The execute loop over the indexes ixs, from l, with edited the tasks edited so far. */
  function EditFrom(l: ToDoList, cat: Task -> PendingChar, ixs: seq<TaskIndex>, d: EditTaskDescriptor, edited: seq<Task>): (r: EditRun)
    ensures Placed(l, cat) ==> Placed(r.state, cat)
    ensures r.Finished? ==> |r.edited| == |edited| + |ixs| && r.edited[..|edited|] == edited
    ensures r.Stopped? ==> !r.failure.Done?
    ensures ixs == [] ==> r == Finished(l, edited)
    decreases |ixs|
  {
    if ixs == [] then Finished(l, edited)
    else
      match EditOne(l, cat, ixs[0], d)
      case Failure(f) => Stopped(l, f)
      case Success(step) =>
        var r := EditFrom(step.0, cat, ixs[1..], d, edited + [step.1]);
        assert r.Finished? ==> r.edited[..|edited|] == (edited + [step.1])[..|edited|];
        r
  }

  /** Running the loop over ixs1 + ixs2 is running it over ixs1, then over ixs2 if nothing failed. */
  lemma {:induction false} EditFromSplit(l: ToDoList, cat: Task -> PendingChar, ixs1: seq<TaskIndex>, ixs2: seq<TaskIndex>,
                                         d: EditTaskDescriptor, edited: seq<Task>)
    ensures var first := EditFrom(l, cat, ixs1, d, edited);
      EditFrom(l, cat, ixs1 + ixs2, d, edited) ==
        if first.Finished? then EditFrom(first.state, cat, ixs2, d, first.edited) else first
    decreases |ixs1|
  {
    if ixs1 == [] {
      assert ixs1 + ixs2 == ixs2;
    } else {
      assert (ixs1 + ixs2)[0] == ixs1[0];
      assert (ixs1 + ixs2)[1..] == ixs1[1..] + ixs2;
      match EditOne(l, cat, ixs1[0], d)
      case Failure(f) =>
      case Success(step) =>
        EditFromSplit(step.0, cat, ixs1[1..], ixs2, d, edited + [step.1]);
    }
  }

  /**
   * Edit is not atomic: when the index after ixs fails, the loop stops in
   * the state the edits for ixs produced, not in the state it started from.
   */
  lemma EarlierEditsStay(l: ToDoList, cat: Task -> PendingChar, ixs: seq<TaskIndex>, bad: TaskIndex,
                         rest: seq<TaskIndex>, d: EditTaskDescriptor)
    requires EditFrom(l, cat, ixs, d, []).Finished?
    requires EditOne(EditFrom(l, cat, ixs, d, []).state, cat, bad, d).Failure?
    ensures var reached := EditFrom(l, cat, ixs, d, []).state;
      EditFrom(l, cat, ixs + [bad] + rest, d, []) ==
        Stopped(reached, EditOne(reached, cat, bad, d).error)
  {
    var first := EditFrom(l, cat, ixs, d, []);
    EditFromSplit(l, cat, ixs, [bad] + rest, d, []);
    assert ixs + [bad] + rest == ixs + ([bad] + rest);
    assert ([bad] + rest)[0] == bad;
  }

  /** A concrete run: the first index edits a task, the second is out of range, the edit stays. */
  lemma PartialEditExample(cat: Task -> PendingChar)
    requires forall u :: cat(u) == 'f'
    ensures var t := Task("report", None, None, None, None, None, []);
      var l := ToDoList([], [], [t], []);
      var run := EditFrom(l, cat, [TaskIndex('f', 1), TaskIndex('f', 2)], NO_EDITS.(title := Some("final report")), []);
      && run == Stopped(run.state, Failed(InvalidTaskDisplayedIndex))
      && run.state != l
      && run.state.floats == [t.(title := "final report")]
  {
    var t := Task("report", None, None, None, None, None, []);
    var l := ToDoList([], [], [t], []);
    var d := NO_EDITS.(title := Some("final report"));
    var ixs := [TaskIndex('f', 1), TaskIndex('f', 2)];
    var e := t.(title := "final report");
    assert CreateEditedTask(t, d) == e;
    assert e !in l.floats;
    assert IndexOf(l.floats, t) == 0;
    assert ReplaceFirst(l.floats, t, e) == [e];
    assert Update(l, cat, 'f', t, e) == Some(ToDoList([], [], [e], []));
    var one := EditOne(l, cat, ixs[0], d);
    assert one == Success((ToDoList([], [], [e], []), e));
    assert ixs[1..] == [TaskIndex('f', 2)];
    assert e != t;
  }

  /** The index list Edit refills: each edited task's 0-based position in its category list. */
  function Selection(l: ToDoList, cat: Task -> PendingChar, ts: seq<Task>): (s: seq<TaskIndex>)
    ensures |s| == |ts|
    ensures forall k :: 0 <= k < |s| ==> s[k] == ZeroBasedIndex(l, cat, ts[k])
  {
    seq(|ts|, k requires 0 <= k < |ts| => ZeroBasedIndex(l, cat, ts[k]))
  }

  /**
   * The refilled index numbers are 0-based while execute reads numbers as
   * 1-based: read back by execute, a recorded index addresses the task
   * before the one recorded, or throws when that task was first in its list.
   */
  lemma ReeditMissesSelectedTask(l: ToDoList, cat: Task -> PendingChar, t: Task, d: EditTaskDescriptor)
    requires t in l.ListFromChar(cat(t))
    ensures var ix := ZeroBasedIndex(l, cat, t);
      var list := l.ListFromChar(cat(t));
      && (ix.taskNumber == 0 ==> EditOne(l, cat, ix, d) == Failure(IndexOutOfBounds))
      && (ix.taskNumber > 0 ==> list[ix.taskNumber - 1] != t)
  {
    var ix := ZeroBasedIndex(l, cat, t);
    var list := l.ListFromChar(cat(t));
    if ix.taskNumber > 0 {
      assert list[..ix.taskNumber][ix.taskNumber - 1] == list[ix.taskNumber - 1];
    }
  }

  class EditCommand {
    var filteredTaskListIndexes: seq<TaskIndex>
    const editTaskDescriptor: EditTaskDescriptor

    /** The command keeps the index list and a field-by-field copy of the descriptor. */
    constructor (filteredTaskListIndexes: seq<TaskIndex>, editTaskDescriptor: EditTaskDescriptor)
      ensures this.filteredTaskListIndexes == filteredTaskListIndexes
      ensures this.editTaskDescriptor == editTaskDescriptor
    {
      this.filteredTaskListIndexes := filteredTaskListIndexes;
      this.editTaskDescriptor := EditTaskDescriptor(
        editTaskDescriptor.title, editTaskDescriptor.venue, editTaskDescriptor.startTime,
        editTaskDescriptor.endTime, editTaskDescriptor.urgencyLevel, editTaskDescriptor.description,
        editTaskDescriptor.tags);
    }

    /**
     * The first loop of execute: for each index in order, the task at
     * taskNumber - 1 of the named list is edited through updateTask; the
     * first failure stops the loop and is returned, with the edits made
     * before it left in place.
     */
    method EditEach(model: Model) returns (failure: Option<CommandResult>, listOfEditedTasks: seq<Task>)
      requires model.Valid()
      modifies model
      ensures model.Valid()
      ensures var run := EditFrom(old(model.GetToDoList()), model.task.taskChar, filteredTaskListIndexes, editTaskDescriptor, []);
        && model.GetToDoList() == run.state
        && model.selectedIndexes == old(model.selectedIndexes)
        && (failure.Some? <==> run.Stopped?)
        && (run.Stopped? ==> failure == Some(run.failure))
        && (run.Finished? ==> listOfEditedTasks == run.edited)
    {
      var cat := model.task.taskChar;
      ghost var originalToDoList := model.GetToDoList();
      listOfEditedTasks := [];
      var count := 0;
      while count < |filteredTaskListIndexes|
        invariant 0 <= count <= |filteredTaskListIndexes|
        invariant model.Valid()
        invariant model.selectedIndexes == old(model.selectedIndexes)
        invariant EditFrom(originalToDoList, cat, filteredTaskListIndexes, editTaskDescriptor, [])
               == EditFrom(model.GetToDoList(), cat, filteredTaskListIndexes[count..], editTaskDescriptor, listOfEditedTasks)
      {
        var current := model.GetToDoList();
        var ix := filteredTaskListIndexes[count];
        ghost var step := EditOne(current, cat, ix, editTaskDescriptor);
        assert EditFrom(current, cat, filteredTaskListIndexes[count..], editTaskDescriptor, listOfEditedTasks)
            == if step.Failure? then Stopped(current, step.error)
               else EditFrom(step.value.0, cat, filteredTaskListIndexes[count + 1..], editTaskDescriptor, listOfEditedTasks + [step.value.1]) by {
          assert filteredTaskListIndexes[count..][0] == ix;
          assert filteredTaskListIndexes[count..][1..] == filteredTaskListIndexes[count + 1..];
        }
        var lastShownList := model.GetListFromChar(ix.taskChar);
        var filteredTaskListIndex := ix.taskNumber - 1;
        if filteredTaskListIndex >= |lastShownList| {
          return Some(Failed(InvalidTaskDisplayedIndex)), listOfEditedTasks;
        }
        if filteredTaskListIndex < 0 {
          return Some(IndexOutOfBounds), listOfEditedTasks;
        }
        var taskToEdit := lastShownList[filteredTaskListIndex];
        var editedTask := CreateEditedTask(taskToEdit, editTaskDescriptor);
        var updated := model.UpdateTask(ix.taskChar, taskToEdit, editedTask);
        if !updated {
          return Some(Failed(Text(MESSAGE_DUPLICATE_TASK))), listOfEditedTasks;
        }
        assert step == Success((model.GetToDoList(), editedTask));
        listOfEditedTasks := listOfEditedTasks + [editedTask];
        count := count + 1;
      }
      failure := None;
    }

    /**
     * EditCommand.execute: edits the task of every index in order. A failure
     * leaves the edits made so far and pushes nothing; success replaces the
     * index list by the 0-based positions of the edited tasks and pushes
     * (snapshot, MESSAGE_EDIT_TASK_SUCCESS) with the placeholder unfilled.
     */
    method Execute(model: Model, history: History) returns (r: CommandResult)
      requires model.Valid() && history.Valid()
      modifies this, model, history
      ensures model.Valid() && history.Valid()
      ensures var before := old(model.GetToDoList());
        var run := EditFrom(before, model.task.taskChar, old(filteredTaskListIndexes), editTaskDescriptor, []);
        && model.GetToDoList() == run.state
        && model.selectedIndexes == old(model.selectedIndexes)
        && (run.Stopped? ==>
              && r == run.failure
              && filteredTaskListIndexes == old(filteredTaskListIndexes)
              && unchanged(history))
        && (run.Finished? ==>
              && r == Done(MESSAGE_EDIT_TASK_SUCCESS)
              && filteredTaskListIndexes == Selection(run.state, model.task.taskChar, run.edited)
              && history.Entries() == Pushed(old(history.Entries()), (before, MESSAGE_EDIT_TASK_SUCCESS)))
    {
      var cat := model.task.taskChar;
      var originalToDoList := model.GetToDoList();
      var failure, listOfEditedTasks := EditEach(model);
      if failure.Some? {
        return failure.value;
      }
      filteredTaskListIndexes := SelectEach(model.GetToDoList(), cat, listOfEditedTasks);
      history.Push(originalToDoList, MESSAGE_EDIT_TASK_SUCCESS);
      r := Done(MESSAGE_EDIT_TASK_SUCCESS);
    }
  }

  /**
   * The second loop of execute: the index list is cleared and refilled
   * with each edited task's position in its category list, in order.
   */
  method SelectEach(l: ToDoList, cat: Task -> PendingChar, listOfEditedTasks: seq<Task>) returns (indexes: seq<TaskIndex>)
    ensures indexes == Selection(l, cat, listOfEditedTasks)
  {
    indexes := [];
    for k := 0 to |listOfEditedTasks|
      invariant |indexes| == k
      invariant forall j :: 0 <= j < k ==> indexes[j] == ZeroBasedIndex(l, cat, listOfEditedTasks[j])
    {
      var taskChar := cat(listOfEditedTasks[k]);
      var listOfTask := l.ListFromChar(taskChar);
      indexes := indexes + [TaskIndex(taskChar, IndexOf(listOfTask, listOfEditedTasks[k]))];
    }
  }
}
