/** AddCommand: building the task from the raw arguments, and adding it. */
module Add {
  import opened Wrappers
  import opened Tasks
  import opened ToDo
  import opened Undo
  import opened Commands
  import Time

  const MESSAGE_SUCCESS := "New Task added: %1$s"
  const MESSAGE_DUPLICATE_TASK := "This Task already exists in the to-do list"

  /** The success feedback is the fixed text followed by the task's own text. */
  lemma SuccessMessageNamesTask(text: string)
    ensures Format(MESSAGE_SUCCESS, text) == "New Task added: " + text
  {
    var a, b := "New Task", " added: ";
    var prefix := a + b;
    assert prefix == "New Task added: ";
    assert MESSAGE_SUCCESS == prefix + PLACEHOLDER;
    assert '%' !in a && '%' !in b;
    assert '%' !in prefix;
    FormatTrailingPlaceholder(prefix, text);
  }

  /**
   * The end time the constructor keeps: the endtime argument when no
   * deadline is given, the deadline when no endtime is given, and none
   * when both or neither are given.
   */
  function ResolveEndTime(endtime: Option<string>, deadline: Option<string>): (r: Option<string>)
    ensures r.Some? <==> endtime.Some? != deadline.Some?
    ensures r.Some? ==> r == endtime || r == deadline
    ensures endtime.Some? && deadline.None? ==> r == endtime
    ensures deadline.Some? && endtime.None? ==> r == deadline
  {
    var fromEndtime := if endtime.Some? && deadline.None? then endtime else None;
    if deadline.Some? && endtime.None? then deadline else fromEndtime
  }

  /** The constructor's tag loop: one tag per tag name, in iteration order. */
  method TagList(names: seq<string>) returns (tags: seq<Tag>)
    ensures |tags| == |names|
    ensures forall k :: 0 <= k < |tags| ==> tags[k].name == names[k]
  {
    tags := [];
    for i := 0 to |names|
      invariant |tags| == i
      invariant forall k :: 0 <= k < i ==> tags[k].name == names[k]
    {
      tags := tags + [Tag(names[i])];
    }
  }

  /**
   * The AddCommand constructor once its value objects are built: optional
   * fields are kept exactly when given, the end time follows ResolveEndTime,
   * and when both a start and an end time are present the start must be a
   * valid duration before the end (StartTime.isValidDuration, taken as the
   * parameter isValidDuration).
   */
  function NewTask(title: string, venue: Option<string>, starttime: Option<string>,
                   endtime: Option<string>, deadline: Option<string>, urgencyLevel: Option<string>,
                   description: Option<string>, tags: seq<Tag>,
                   isValidDuration: (string, string) -> bool): (r: Result<Task, string>)
    ensures var end := ResolveEndTime(endtime, deadline);
      r.Failure? <==> starttime.Some? && end.Some? && !isValidDuration(starttime.value, end.value)
    ensures r.Failure? ==> r.error == Time.MESSAGE_INVALID_DURATION
    ensures r.Success? ==>
      && r.value.title == title && r.value.tags == tags
      && r.value.venue == venue && r.value.startTime == starttime
      && r.value.urgencyLevel == urgencyLevel && r.value.description == description
      && r.value.endTime == ResolveEndTime(endtime, deadline)
  {
    var end := ResolveEndTime(endtime, deadline);
    if starttime.Some? && end.Some? && !isValidDuration(starttime.value, end.value) then
      Failure(Time.MESSAGE_INVALID_DURATION)
    else
      Success(Task(title, venue, starttime, end, urgencyLevel, description, tags))
  }

  /** A successful add selects the position the task was appended at: the old length of its list. */
  lemma AddedTaskSelectedAtOldLength(l: ToDoList, cat: Task -> PendingChar, t: Task)
    requires !IsDuplicate(l, cat, t)
    ensures ZeroBasedIndex(AddTo(l, cat, t), cat, t) == TaskIndex(cat(t), |l.ListFromChar(cat(t))|)
  {
    IndexOfAppended(l.ListFromChar(cat(t)), t);
  }

  class AddCommand {
    const toAdd: Task

    constructor (toAdd: Task)
      ensures this.toAdd == toAdd
    {
      this.toAdd := toAdd;
    }

    /**
     * AddCommand.execute: snapshot the to-do list, add the task, and on
     * success push (snapshot, message) onto the history and select the task
     * at its 0-based position. A duplicate fails and changes nothing.
     */
    method Execute(model: Model, history: History) returns (r: CommandResult)
      requires model.Valid() && history.Valid()
      modifies model, history
      ensures model.Valid() && history.Valid()
      ensures var before := old(model.GetToDoList());
        var cat := model.task.taskChar;
        if IsDuplicate(before, cat, toAdd) then
          && r == Failed(Text(MESSAGE_DUPLICATE_TASK))
          && model.GetToDoList() == before
          && model.selectedIndexes == old(model.selectedIndexes)
          && unchanged(history)
        else
          var feedback := Format(MESSAGE_SUCCESS, model.task.text(toAdd));
          && r == Done(feedback)
          && model.GetToDoList() == AddTo(before, cat, toAdd)
          && history.Entries() == Pushed(old(history.Entries()), (before, feedback))
          && model.selectedIndexes == [ZeroBasedIndex(model.GetToDoList(), cat, toAdd)]
    {
      var originalToDoList := model.GetToDoList();
      var added := model.AddTask(toAdd);
      if !added {
        return Failed(Text(MESSAGE_DUPLICATE_TASK));
      }
      var commandResultToUndo := Format(MESSAGE_SUCCESS, model.task.text(toAdd));
      history.Push(originalToDoList, commandResultToUndo);
      var taskChar := model.task.taskChar(toAdd);
      var lastShownList := model.GetListFromChar(taskChar);
      var indexToBeSelected := TaskIndex(taskChar, IndexOf(lastShownList, toAdd));
      model.UpdateSelectedIndexes([indexToBeSelected]);
      r := Done(Format(MESSAGE_SUCCESS, model.task.text(toAdd)));
    }
  }

  /**
   * The AddCommand constructor end to end: the tag loop, then the task,
   * failing with MESSAGE_INVALID_DURATION when the times are out of order.
   */
  method Create(title: string, venue: Option<string>, starttime: Option<string>,
                endtime: Option<string>, deadline: Option<string>, urgencyLevel: Option<string>,
                description: Option<string>, tagNames: seq<string>,
                isValidDuration: (string, string) -> bool) returns (r: Result<AddCommand, string>)
    ensures r.Failure? <==> var end := ResolveEndTime(endtime, deadline);
      starttime.Some? && end.Some? && !isValidDuration(starttime.value, end.value)
    ensures r.Failure? ==> r.error == Time.MESSAGE_INVALID_DURATION
    ensures r.Success? ==>
      && fresh(r.value)
      && |r.value.toAdd.tags| == |tagNames|
      && (forall k :: 0 <= k < |tagNames| ==> r.value.toAdd.tags[k].name == tagNames[k])
      && r.value.toAdd.endTime == ResolveEndTime(endtime, deadline)
      && r.value.toAdd.title == title && r.value.toAdd.venue == venue
      && r.value.toAdd.startTime == starttime && r.value.toAdd.urgencyLevel == urgencyLevel
      && r.value.toAdd.description == description
  {
    var tagSet := TagList(tagNames);
    var t := NewTask(title, venue, starttime, endtime, deadline, urgencyLevel, description, tagSet, isValidDuration);
    if t.Failure? {
      return Failure(t.error);
    }
    var command := new AddCommand(t.value);
    r := Success(command);
  }
}
