/** CompleteCommand: completing the tasks at a list of indexes, or at the current selection. */
module Complete {
  import opened Wrappers
  import opened Tasks
  import opened ToDo
  import opened Undo
  import opened Commands

  const MESSAGE_COMPLETE_TASK_SUCCESS := "Completed Task: "

  /** The task an index names exists: its taskNumber - 1 is a position of its list. */
  predicate InRange(l: ToDoList, ix: TaskIndex)
  {
    0 <= ix.taskNumber - 1 < |l.ListFromChar(ix.taskChar)|
  }

  /**
   * What an index outside its list ends in: the CommandException for a
   * position at or past the end, List.get's exception for a negative one.
   */
  function RangeError(l: ToDoList, ix: TaskIndex): CommandResult
  {
    if ix.taskNumber - 1 >= |l.ListFromChar(ix.taskChar)| then Failed(InvalidTaskDisplayedIndex) else IndexOutOfBounds
  }

  /** The outcome of the first loop: the tasks to complete, or the failure that stopped it. */
  datatype Resolution = Resolved(tasks: seq<Task>) | Rejected(result: CommandResult)

  /**
   * The first loop of execute with its guard corrected to reject every
   * position at or past the end of the list: each index resolves to the
   * task it names, and the first index outside its list decides the failure.
   */
  function ResolveFrom(l: ToDoList, ixs: seq<TaskIndex>): (r: Resolution)
    ensures r.Resolved? <==> forall k :: 0 <= k < |ixs| ==> InRange(l, ixs[k])
    ensures r.Resolved? ==> IndexedTasks(l, ixs, r.tasks)
    decreases |ixs|
  {
    if ixs == [] then Resolved([])
    else
      var list := l.ListFromChar(ixs[0].taskChar);
      var filteredTaskListIndex := ixs[0].taskNumber - 1;
      if |list| <= filteredTaskListIndex then Rejected(Failed(InvalidTaskDisplayedIndex))
      else if filteredTaskListIndex < 0 then Rejected(IndexOutOfBounds)
      else
        var rest := ResolveFrom(l, ixs[1..]);
        AllInRangeTail(l, ixs);
        match rest
        case Resolved(ts) =>
          IndexedTasksPrepend(l, ixs, ts);
          Resolved([list[filteredTaskListIndex]] + ts)
        case Rejected(e) => Rejected(e)
  }

  /** ts[k] is the task ixs[k] names, for every k. */
  predicate IndexedTasks(l: ToDoList, ixs: seq<TaskIndex>, ts: seq<Task>)
  {
    && |ts| == |ixs|
    && forall k :: 0 <= k < |ixs| ==> InRange(l, ixs[k]) && ts[k] == l.ListFromChar(ixs[k].taskChar)[ixs[k].taskNumber - 1]
  }

  /** The tasks of the later indexes, after the task of the first, are the tasks of all of them. */
  lemma IndexedTasksPrepend(l: ToDoList, ixs: seq<TaskIndex>, ts: seq<Task>)
    requires ixs != [] && InRange(l, ixs[0]) && IndexedTasks(l, ixs[1..], ts)
    ensures IndexedTasks(l, ixs, [l.ListFromChar(ixs[0].taskChar)[ixs[0].taskNumber - 1]] + ts)
  {
    var tasks := [l.ListFromChar(ixs[0].taskChar)[ixs[0].taskNumber - 1]] + ts;
    forall k | 1 <= k < |ixs|
      ensures InRange(l, ixs[k]) && tasks[k] == l.ListFromChar(ixs[k].taskChar)[ixs[k].taskNumber - 1]
    {
      assert ixs[k] == ixs[1..][k - 1] && tasks[k] == ts[k - 1];
    }
  }

  /** Every index is inside its list exactly when the first one is and every later one is. */
  lemma AllInRangeTail(l: ToDoList, ixs: seq<TaskIndex>)
    requires ixs != []
    ensures (forall k :: 0 <= k < |ixs| ==> InRange(l, ixs[k]))
        <==> InRange(l, ixs[0]) && forall k :: 0 <= k < |ixs[1..]| ==> InRange(l, ixs[1..][k])
  {
    assert forall k :: 1 <= k < |ixs| ==> ixs[k] == ixs[1..][k - 1];
  }

  /** ixs[k] is the first index outside its list. */
  predicate FirstOutOfRange(l: ToDoList, ixs: seq<TaskIndex>, k: int)
  {
    && 0 <= k < |ixs|
    && !InRange(l, ixs[k])
    && forall j :: 0 <= j < k ==> InRange(l, ixs[j])
  }

  /** When ixs[k] is the first index outside its list, resolution fails the way ixs[k] fails. */
  lemma {:induction false} ResolveStopsAtFirstOutOfRange(l: ToDoList, ixs: seq<TaskIndex>, k: int)
    requires FirstOutOfRange(l, ixs, k)
    ensures ResolveFrom(l, ixs) == Rejected(RangeError(l, ixs[k]))
    decreases k
  {
    if k > 0 {
      assert InRange(l, ixs[0]);
      FirstOutOfRangeShifts(l, ixs, k);
      ResolveStopsAtFirstOutOfRange(l, ixs[1..], k - 1);
    }
  }

  /** Dropping an index inside its list moves the first index outside one place down. */
  lemma FirstOutOfRangeShifts(l: ToDoList, ixs: seq<TaskIndex>, k: int)
    requires FirstOutOfRange(l, ixs, k) && 0 < k
    ensures FirstOutOfRange(l, ixs[1..], k - 1) && ixs[1..][k - 1] == ixs[k]
  {
    assert forall j :: 0 <= j < k - 1 ==> ixs[1..][j] == ixs[j + 1];
  }

  /** When every index is inside its list, resolution gives each index's task, in order. */
  lemma ResolveAllInRange(l: ToDoList, ixs: seq<TaskIndex>, ts: seq<Task>)
    requires |ts| == |ixs|
    requires forall k :: 0 <= k < |ixs| ==>
      InRange(l, ixs[k]) && ts[k] == l.ListFromChar(ixs[k].taskChar)[ixs[k].taskNumber - 1]
    ensures ResolveFrom(l, ixs) == Resolved(ts)
  {
    var r := ResolveFrom(l, ixs);
    assert r.Resolved?;
    assert r.tasks == ts;
  }

  /**
   * The first loop as written: its guard `size < position` lets the
   * position equal to the size through, and List.get then throws.
   */
  function ResolveAsWrittenFrom(l: ToDoList, ixs: seq<TaskIndex>): (r: Resolution)
    ensures r.Resolved? <==> forall k :: 0 <= k < |ixs| ==> InRange(l, ixs[k])
    decreases |ixs|
  {
    if ixs == [] then Resolved([])
    else
      var list := l.ListFromChar(ixs[0].taskChar);
      var filteredTaskListIndex := ixs[0].taskNumber - 1;
      if |list| < filteredTaskListIndex then Rejected(Failed(InvalidTaskDisplayedIndex))
      else if filteredTaskListIndex < 0 || filteredTaskListIndex >= |list| then Rejected(IndexOutOfBounds)
      else
        var rest := ResolveAsWrittenFrom(l, ixs[1..]);
        AllInRangeTail(l, ixs);
        match rest
        case Resolved(ts) => Resolved([list[filteredTaskListIndex]] + ts)
        case Rejected(e) => Rejected(e)
  }

  /** Under the written guard the first index outside its list decides the failure too. */
  lemma {:induction false} WrittenStopsAtFirstOutOfRange(l: ToDoList, ixs: seq<TaskIndex>, k: int)
    requires FirstOutOfRange(l, ixs, k)
    ensures ResolveAsWrittenFrom(l, ixs) == Rejected(WrittenError(l, ixs[k]))
    decreases k
  {
    if k > 0 {
      assert InRange(l, ixs[0]);
      FirstOutOfRangeShifts(l, ixs, k);
      WrittenStopsAtFirstOutOfRange(l, ixs[1..], k - 1);
    }
  }

  /** How an index outside its list fails under the written guard. */
  function WrittenError(l: ToDoList, ix: TaskIndex): CommandResult
  {
    if ix.taskNumber - 1 > |l.ListFromChar(ix.taskChar)| then Failed(InvalidTaskDisplayedIndex) else IndexOutOfBounds
  }

  /** The position just past the end of its list. */
  predicate AtEnd(l: ToDoList, ix: TaskIndex)
  {
    ix.taskNumber - 1 == |l.ListFromChar(ix.taskChar)|
  }

  /** Away from the boundary the written guard and the corrected one agree exactly. */
  lemma {:induction false} AsWrittenAgreesOffBoundary(l: ToDoList, ixs: seq<TaskIndex>)
    requires forall k :: 0 <= k < |ixs| ==> !AtEnd(l, ixs[k])
    ensures ResolveAsWrittenFrom(l, ixs) == ResolveFrom(l, ixs)
    decreases |ixs|
  {
    if ixs != [] {
      assert !AtEnd(l, ixs[0]);
      assert forall k :: 0 <= k < |ixs[1..]| ==> ixs[1..][k] == ixs[k + 1];
      AsWrittenAgreesOffBoundary(l, ixs[1..]);
    }
  }

  /**
   * Both resolutions only read the lists, and reject the same index lists;
   * they differ only in how a rejected index fails.
   */
  lemma AsWrittenRejectsSameLists(l: ToDoList, ixs: seq<TaskIndex>)
    ensures ResolveAsWrittenFrom(l, ixs).Resolved? <==> ResolveFrom(l, ixs).Resolved?
    ensures ResolveAsWrittenFrom(l, ixs).Resolved? ==> ResolveAsWrittenFrom(l, ixs) == ResolveFrom(l, ixs)
  {
    if ResolveFrom(l, ixs).Resolved? {
      AsWrittenAgreesOffBoundary(l, ixs);
    }
  }

  /**
   * `done e2` on a one-event list: the written guard lets position 1 through
   * and List.get throws, where the intended outcome is the invalid-index message.
   */
  lemma GuardOffByOne(t: Task, l: ToDoList)
    requires l == ToDoList([t], [], [], [])
    ensures ResolveAsWrittenFrom(l, [TaskIndex('e', 2)]) == Rejected(IndexOutOfBounds)
    ensures ResolveFrom(l, [TaskIndex('e', 2)]) == Rejected(Failed(InvalidTaskDisplayedIndex))
  {
  }

  /** The second loop: completeTask on each resolved task, in order. */
  function CompleteAll(l: ToDoList, cat: Task -> PendingChar, ts: seq<Task>): (r: ToDoList)
    ensures Placed(l, cat) ==> Placed(r, cat)
    ensures l.completed <= r.completed
    decreases |ts|
  {
    if ts == [] then l else CompleteAll(CompleteOne(l, cat, ts[0]), cat, ts[1..])
  }

  /** A task pending in its own list, or already completed, is in the completed list afterwards. */
  lemma {:induction false} CompleteAllCompletes(l: ToDoList, cat: Task -> PendingChar, ts: seq<Task>, t: Task)
    requires t in ts
    requires t in l.ListFromChar(cat(t)) || t in l.completed
    ensures t in CompleteAll(l, cat, ts).completed
    decreases |ts|
  {
    var next := CompleteOne(l, cat, ts[0]);
    var r := CompleteAll(next, cat, ts[1..]);
    if t == ts[0] {
      assert t in next.completed by {
        if t in l.completed {
          assert l.completed <= next.completed;
        }
      }
      assert next.completed <= r.completed;
    } else {
      assert t in ts[1..];
      if t in l.completed {
        assert l.completed <= next.completed;
      }
      CompleteAllCompletes(next, cat, ts[1..], t);
    }
  }

  /** Completing the tasks from position k on is completing ts[k], then the tasks after it. */
  lemma CompleteAllStep(l: ToDoList, cat: Task -> PendingChar, ts: seq<Task>, k: int)
    requires 0 <= k < |ts|
    ensures CompleteAll(l, cat, ts[k..]) == CompleteAll(CompleteOne(l, cat, ts[k]), cat, ts[k + 1..])
  {
    assert ts[k..][0] == ts[k];
    assert ts[k..][1..] == ts[k + 1..];
  }

  /** The success message body: getTitleFormattedString of each task, concatenated in order. */
  function Titles(ts: seq<Task>, titleText: Task -> string): string
    decreases |ts|
  {
    if ts == [] then "" else titleText(ts[0]) + Titles(ts[1..], titleText)
  }

  /** The message of a longer run is the message of its parts, in order. */
  lemma {:induction false} TitlesAppend(a: seq<Task>, b: seq<Task>, titleText: Task -> string)
    ensures Titles(a + b, titleText) == Titles(a, titleText) + Titles(b, titleText)
    decreases |a|
  {
    if a == [] {
      assert a + b == b;
    } else {
      assert (a + b)[0] == a[0];
      assert (a + b)[1..] == a[1..] + b;
      TitlesAppend(a[1..], b, titleText);
    }
  }

  /** The third loop: each completed task's 1-based position in the completed list. */
  function CompletedSelection(l: ToDoList, ts: seq<Task>): (s: seq<TaskIndex>)
    ensures |s| == |ts|
    ensures forall k :: 0 <= k < |s| ==> s[k].taskChar == 'c' && s[k].taskNumber <= |l.completed|
    ensures forall k :: 0 <= k < |s| ==> (1 <= s[k].taskNumber <==> ts[k] in l.completed)
    ensures forall k :: 0 <= k < |s| && ts[k] in l.completed ==> l.completed[s[k].taskNumber - 1] == ts[k]
  {
    seq(|ts|, k requires 0 <= k < |ts| => TaskIndex('c', IndexOf(l.completed, ts[k]) + 1))
  }

  /** Every resolved task is pending in its own list or already completed. */
  lemma ResolvedTasksInPlay(l: ToDoList, cat: Task -> PendingChar, ixs: seq<TaskIndex>)
    requires Placed(l, cat) && ResolveFrom(l, ixs).Resolved?
    ensures var ts := ResolveFrom(l, ixs).tasks;
      forall k :: 0 <= k < |ts| ==> ts[k] in l.ListFromChar(cat(ts[k])) || ts[k] in l.completed
  {
    var ts := ResolveFrom(l, ixs).tasks;
    forall k | 0 <= k < |ts|
      ensures ts[k] in l.ListFromChar(cat(ts[k])) || ts[k] in l.completed
    {
      var ch := ixs[k].taskChar;
      assert ts[k] in l.ListFromChar(ch);
      if ch != 'c' {
        var p: PendingChar := ch;
        assert cat(ts[k]) == p;
      }
    }
  }

  /**
   * The selection Complete records reads back, through the same resolution,
   * as exactly the tasks it completed: its numbers are 1-based.
   */
  lemma SelectionResolvesToCompleted(l: ToDoList, cat: Task -> PendingChar, ixs: seq<TaskIndex>)
    requires Placed(l, cat) && ResolveFrom(l, ixs).Resolved?
    ensures var ts := ResolveFrom(l, ixs).tasks;
      var after := CompleteAll(l, cat, ts);
      ResolveFrom(after, CompletedSelection(after, ts)) == Resolved(ts)
  {
    var ts := ResolveFrom(l, ixs).tasks;
    var after := CompleteAll(l, cat, ts);
    ResolvedTasksInPlay(l, cat, ixs);
    forall t | t in ts
      ensures t in after.completed
    {
      CompleteAllCompletes(l, cat, ts, t);
    }
    SelectionOfCompletedResolves(after, ts);
  }

  /** Selecting tasks that are all completed, then resolving the selection, gives them back. */
  lemma SelectionOfCompletedResolves(l: ToDoList, ts: seq<Task>)
    requires forall t :: t in ts ==> t in l.completed
    ensures ResolveFrom(l, CompletedSelection(l, ts)) == Resolved(ts)
  {
    var sel := CompletedSelection(l, ts);
    assert l.ListFromChar('c') == l.completed;
    forall k | 0 <= k < |sel|
      ensures InRange(l, sel[k]) && l.ListFromChar(sel[k].taskChar)[sel[k].taskNumber - 1] == ts[k]
    {
      assert ts[k] in ts;
    }
    var res := ResolveFrom(l, sel);
    assert res.Resolved?;
  }

  class CompleteCommand {
    var filteredTaskListIndexes: seq<TaskIndex>

    constructor (filteredTaskListIndexes: seq<TaskIndex>)
      ensures this.filteredTaskListIndexes == filteredTaskListIndexes
    {
      this.filteredTaskListIndexes := filteredTaskListIndexes;
    }

    /** The first loop of execute: every index resolved before anything changes. */
    method ResolveEach(model: Model) returns (res: Resolution)
      ensures res == ResolveFrom(model.GetToDoList(), filteredTaskListIndexes)
    {
      ghost var l := model.GetToDoList();
      var tasksToComplete: seq<Task> := [];
      for count := 0 to |filteredTaskListIndexes|
        invariant |tasksToComplete| == count
        invariant forall k :: 0 <= k < count ==>
          && InRange(l, filteredTaskListIndexes[k])
          && tasksToComplete[k] == l.ListFromChar(filteredTaskListIndexes[k].taskChar)[filteredTaskListIndexes[k].taskNumber - 1]
      {
        var ix := filteredTaskListIndexes[count];
        var lastShownList := model.GetListFromChar(ix.taskChar);
        var filteredTaskListIndex := ix.taskNumber - 1;
        if |lastShownList| <= filteredTaskListIndex {
          ResolveStopsAtFirstOutOfRange(l, filteredTaskListIndexes, count);
          return Rejected(Failed(InvalidTaskDisplayedIndex));
        }
        if filteredTaskListIndex < 0 {
          ResolveStopsAtFirstOutOfRange(l, filteredTaskListIndexes, count);
          return Rejected(IndexOutOfBounds);
        }
        tasksToComplete := tasksToComplete + [lastShownList[filteredTaskListIndex]];
      }
      ResolveAllInRange(l, filteredTaskListIndexes, tasksToComplete);
      res := Resolved(tasksToComplete);
    }

    /**
     * CompleteCommand.execute: fall back to the model's selection when no
     * index is given, resolve every index, then complete the tasks in order,
     * push (snapshot, message) and select each task's 1-based position in
     * the completed list.
     */
    method Execute(model: Model, history: History) returns (r: CommandResult)
      requires model.Valid() && history.Valid()
      modifies this, model, history
      ensures model.Valid() && history.Valid()
      ensures var ixs := if old(filteredTaskListIndexes) == [] then old(model.selectedIndexes) else old(filteredTaskListIndexes);
        var before := old(model.GetToDoList());
        var res := ResolveFrom(before, ixs);
        && filteredTaskListIndexes == ixs
        && (ixs == [] ==>
              && r == Failed(NoTaskSelected)
              && model.GetToDoList() == before && model.selectedIndexes == old(model.selectedIndexes)
              && unchanged(history))
        && (ixs != [] && res.Rejected? ==>
              && r == res.result
              && model.GetToDoList() == before && model.selectedIndexes == old(model.selectedIndexes)
              && unchanged(history))
        && (ixs != [] && res.Resolved? ==>
              var after := CompleteAll(before, model.task.taskChar, res.tasks);
              var message := MESSAGE_COMPLETE_TASK_SUCCESS + Titles(res.tasks, model.task.titleText);
              && r == Done(message)
              && model.GetToDoList() == after
              && model.selectedIndexes == CompletedSelection(after, res.tasks)
              && history.Entries() == Pushed(old(history.Entries()), (before, message)))
    {
      if filteredTaskListIndexes == [] {
        filteredTaskListIndexes := filteredTaskListIndexes + model.selectedIndexes;
        if filteredTaskListIndexes == [] {
          return Failed(NoTaskSelected);
        }
      }
      var originalToDoList := model.GetToDoList();
      var res := ResolveEach(model);
      if res.Rejected? {
        return res.result;
      }
      var tasksToComplete := res.tasks;
      var messageSuccessful := CompleteEach(model, tasksToComplete);
      ghost var after := model.GetToDoList();
      assert after == CompleteAll(originalToDoList, model.task.taskChar, tasksToComplete);
      var commandResultToUndo := MESSAGE_COMPLETE_TASK_SUCCESS + messageSuccessful;
      history.Push(originalToDoList, commandResultToUndo);
      assert model.GetToDoList() == after;
      var selectedIndexes := SelectEach(model.GetToDoList(), tasksToComplete);
      model.UpdateSelectedIndexes(selectedIndexes);
      r := Done(MESSAGE_COMPLETE_TASK_SUCCESS + messageSuccessful);
    }
  }

  /** One more task's title extends the message body of the tasks before it. */
  lemma TitlesStep(ts: seq<Task>, k: int, titleText: Task -> string)
    requires 0 <= k < |ts|
    ensures Titles(ts[..k + 1], titleText) == Titles(ts[..k], titleText) + titleText(ts[k])
  {
    TitlesAppend(ts[..k], [ts[k]], titleText);
    assert ts[..k + 1] == ts[..k] + [ts[k]];
    assert Titles([ts[k]], titleText) == titleText(ts[k]) + Titles([], titleText);
  }

  /** The third loop of execute: each task's 1-based position in the completed list. */
  method SelectEach(l: ToDoList, tasksToComplete: seq<Task>) returns (selectedIndexes: seq<TaskIndex>)
    ensures selectedIndexes == CompletedSelection(l, tasksToComplete)
  {
    var completedList := l.completed;
    selectedIndexes := [];
    for count := 0 to |tasksToComplete|
      invariant |selectedIndexes| == count
      invariant forall k :: 0 <= k < count ==>
        selectedIndexes[k] == TaskIndex('c', IndexOf(completedList, tasksToComplete[k]) + 1)
    {
      selectedIndexes := selectedIndexes + [TaskIndex('c', IndexOf(completedList, tasksToComplete[count]) + 1)];
    }
  }

  /**
   * The second loop of execute: completeTask on each task in order, with
   * the titles collected into the message body.
   */
  method CompleteEach(model: Model, tasksToComplete: seq<Task>) returns (titles: string)
    requires model.Valid()
    modifies model
    ensures model.Valid()
    ensures model.GetToDoList() == CompleteAll(old(model.GetToDoList()), model.task.taskChar, tasksToComplete)
    ensures model.selectedIndexes == old(model.selectedIndexes)
    ensures titles == Titles(tasksToComplete, model.task.titleText)
  {
    ghost var l0 := model.GetToDoList();
    titles := "";
    for count := 0 to |tasksToComplete|
      invariant model.Valid()
      invariant model.selectedIndexes == old(model.selectedIndexes)
      invariant CompleteAll(l0, model.task.taskChar, tasksToComplete)
             == CompleteAll(model.GetToDoList(), model.task.taskChar, tasksToComplete[count..])
      invariant titles == Titles(tasksToComplete[..count], model.task.titleText)
    {
      var t := tasksToComplete[count];
      CompleteAllStep(model.GetToDoList(), model.task.taskChar, tasksToComplete, count);
      TitlesStep(tasksToComplete, count, model.task.titleText);
      model.CompleteTask(t);
      titles := titles + model.task.titleText(t);
    }
    assert tasksToComplete[|tasksToComplete|..] == [];
    assert tasksToComplete[..|tasksToComplete|] == tasksToComplete;
  }
}
