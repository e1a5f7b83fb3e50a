/**
 * The to-do list the commands mutate. The Model, ToDoList and UniqueTaskList
 * classes are not part of this model; they are represented by the four
 * category lists, the current selection, and the effect of addTask,
 * updateTask and completeTask on those lists.
 */
module ToDo {
  import opened Wrappers
  import opened Tasks

  /** The four category lists; also the snapshot type the undo history keeps. */
  datatype ToDoList = ToDoList(events: seq<Task>, deadlines: seq<Task>, floats: seq<Task>, completed: seq<Task>)
  {
    /** Model.getListFromChar: the list a category letter addresses. */
    function ListFromChar(ch: ListChar): seq<Task>
    {
      if ch == 'e' then events
      else if ch == 'd' then deadlines
      else if ch == 'f' then floats
      else completed
    }

    /** This to-do list with the list of category ch replaced by s. */
    function WithList(ch: ListChar, s: seq<Task>): (l: ToDoList)
      ensures l.ListFromChar(ch) == s
      ensures forall other: ListChar :: other != ch ==> l.ListFromChar(other) == ListFromChar(other)
    {
      if ch == 'e' then this.(events := s)
      else if ch == 'd' then this.(deadlines := s)
      else if ch == 'f' then this.(floats := s)
      else this.(completed := s)
    }
  }

  /** Every pending task sits in the list of its own category letter. */
  ghost predicate Placed(l: ToDoList, cat: Task -> PendingChar)
  {
    forall ch: PendingChar, t :: t in l.ListFromChar(ch) ==> cat(t) == ch
  }

  /** The duplicate test of Model.addTask: an equal task is already in t's category list. */
  predicate IsDuplicate(l: ToDoList, cat: Task -> PendingChar, t: Task)
  {
    t in l.ListFromChar(cat(t))
  }

  /** Model.addTask of a task that is not a duplicate: t joins the end of its category list. */
  function AddTo(l: ToDoList, cat: Task -> PendingChar, t: Task): (r: ToDoList)
    ensures t in r.ListFromChar(cat(t))
    ensures multiset(r.ListFromChar(cat(t))) == multiset(l.ListFromChar(cat(t))) + multiset{t}
    ensures forall ch: ListChar :: ch != cat(t) ==> r.ListFromChar(ch) == l.ListFromChar(ch)
    ensures Placed(l, cat) ==> Placed(r, cat)
  {
    l.WithList(cat(t), l.ListFromChar(cat(t)) + [t])
  }

  /**
   * Model.updateTask: target, found in the list of category `from`, becomes
   * edited. When the category stays the same the task is replaced in place;
   * otherwise it leaves its list and joins the end of its new category list.
   * None when edited equals a different task already in its category.
   */
  function Update(l: ToDoList, cat: Task -> PendingChar, from: ListChar, target: Task, edited: Task): (r: Option<ToDoList>)
    ensures r.None? <==> edited != target && edited in l.ListFromChar(cat(edited))
    ensures r.Some? && target in l.ListFromChar(from) ==> edited in r.value.ListFromChar(cat(edited))
    ensures r.Some? ==> forall ch: ListChar :: ch != from && ch != cat(edited) ==> r.value.ListFromChar(ch) == l.ListFromChar(ch)
    ensures r.Some? && Placed(l, cat) ==> Placed(r.value, cat)
  {
    var into := cat(edited);
    if edited != target && edited in l.ListFromChar(into) then None
    else if from == into then
      ReplacedKeepsPlaced(l, cat, from, target, edited);
      Some(l.WithList(from, ReplaceFirst(l.ListFromChar(from), target, edited)))
    else
      var removed := l.WithList(from, RemoveFirst(l.ListFromChar(from), target));
      MovedKeepsPlaced(l, cat, from, target, edited);
      Some(removed.WithList(into, removed.ListFromChar(into) + [edited]))
  }

  /** Replacing a task by one of the same category keeps every task in its own category. */
  lemma ReplacedKeepsPlaced(l: ToDoList, cat: Task -> PendingChar, from: ListChar, target: Task, edited: Task)
    requires from == cat(edited)
    ensures Placed(l, cat) ==> Placed(l.WithList(from, ReplaceFirst(l.ListFromChar(from), target, edited)), cat)
  {
    if Placed(l, cat) {
      var s := ReplaceFirst(l.ListFromChar(from), target, edited);
      forall t | t in s
        ensures cat(t) == from
      {
        var k :| 0 <= k < |s| && s[k] == t;
        if t != edited {
          assert l.ListFromChar(from)[k] == t;
        }
      }
    }
  }

  /** Moving a task out of its list and onto the end of its new category keeps every task in its own category. */
  lemma MovedKeepsPlaced(l: ToDoList, cat: Task -> PendingChar, from: ListChar, target: Task, edited: Task)
    requires from != cat(edited)
    ensures var removed := l.WithList(from, RemoveFirst(l.ListFromChar(from), target));
      Placed(l, cat) ==> Placed(removed.WithList(cat(edited), removed.ListFromChar(cat(edited)) + [edited]), cat)
  {
    var removed := l.WithList(from, RemoveFirst(l.ListFromChar(from), target));
    if Placed(l, cat) {
      forall t | t in RemoveFirst(l.ListFromChar(from), target)
        ensures t in l.ListFromChar(from)
      {
        if t == target {
          assert multiset(RemoveFirst(l.ListFromChar(from), target)) + multiset{target} == multiset(l.ListFromChar(from));
        }
      }
      assert Placed(removed, cat);
    }
  }

  /**
   * What a successful update does to target: within one category the edited
   * task takes target's place and every other position keeps its task; across
   * categories target leaves its list once and the edited task joins the end
   * of the new one.
   */
  lemma UpdateReplacesTarget(l: ToDoList, cat: Task -> PendingChar, from: ListChar, target: Task, edited: Task)
    requires target in l.ListFromChar(from)
    requires Update(l, cat, from, target, edited).Some?
    ensures var r := Update(l, cat, from, target, edited).value;
      var before, after := l.ListFromChar(from), r.ListFromChar(from);
      from == cat(edited) ==>
        && |after| == |before|
        && after[IndexOf(before, target)] == edited
        && forall k :: 0 <= k < |before| && k != IndexOf(before, target) ==> after[k] == before[k]
    ensures var r := Update(l, cat, from, target, edited).value;
      from != cat(edited) ==>
        && multiset(r.ListFromChar(from)) + multiset{target} == multiset(l.ListFromChar(from))
        && r.ListFromChar(cat(edited)) == l.ListFromChar(cat(edited)) + [edited]
  {
    var into := cat(edited);
    if from == into {
      ReplaceFirstAtIndex(l.ListFromChar(from), target, edited);
    } else {
      var removed := l.WithList(from, RemoveFirst(l.ListFromChar(from), target));
      assert removed.ListFromChar(into) == l.ListFromChar(into);
    }
  }

  /**
   * Model.completeTask: t moves from its pending category list to the end of
   * the completed list; a task that is not pending there is left alone.
   */
  function CompleteOne(l: ToDoList, cat: Task -> PendingChar, t: Task): (r: ToDoList)
    ensures t in l.ListFromChar(cat(t)) ==>
      && r.completed == l.completed + [t]
      && multiset(r.ListFromChar(cat(t))) + multiset{t} == multiset(l.ListFromChar(cat(t)))
    ensures t !in l.ListFromChar(cat(t)) ==> r == l
    ensures forall ch: PendingChar :: ch != cat(t) ==> r.ListFromChar(ch) == l.ListFromChar(ch)
    ensures forall ch: PendingChar, u :: u != t ==> (u in r.ListFromChar(ch) <==> u in l.ListFromChar(ch))
    ensures l.completed <= r.completed
    ensures Placed(l, cat) ==> Placed(r, cat)
  {
    var ch := cat(t);
    if t in l.ListFromChar(ch) then
      l.WithList(ch, RemoveFirst(l.ListFromChar(ch), t)).(completed := l.completed + [t])
    else l
  }

  /**
   * The TaskIndex that Add and Edit record for t: its category letter and
   * List.indexOf in that category's list, a 0-based position with no +1.
   */
  function ZeroBasedIndex(l: ToDoList, cat: Task -> PendingChar, t: Task): (ix: TaskIndex)
    ensures ix.taskChar == cat(t)
    ensures ix.taskNumber < |l.ListFromChar(cat(t))|
    ensures 0 <= ix.taskNumber <==> t in l.ListFromChar(cat(t))
    ensures 0 <= ix.taskNumber ==> l.ListFromChar(cat(t))[ix.taskNumber] == t
  {
    TaskIndex(cat(t), IndexOf(l.ListFromChar(cat(t)), t))
  }

  /** The Model: four category lists, the current selection, and Task's own methods. */
  class Model {
    var events: seq<Task>
    var deadlines: seq<Task>
    var floats: seq<Task>
    var completed: seq<Task>
    var selectedIndexes: seq<TaskIndex>
    const task: TaskMethods

    /** Model.getToDoList, copied by value: the snapshot a command takes. */
    function GetToDoList(): ToDoList
      reads this
    {
      ToDoList(events, deadlines, floats, completed)
    }

    function GetListFromChar(ch: ListChar): seq<Task>
      reads this
    {
      GetToDoList().ListFromChar(ch)
    }

    ghost predicate Valid()
      reads this
    {
      Placed(GetToDoList(), task.taskChar)
    }

    constructor (task: TaskMethods)
      ensures Valid() && this.task == task
      ensures GetToDoList() == ToDoList([], [], [], []) && selectedIndexes == []
    {
      this.task := task;
      events, deadlines, floats, completed := [], [], [], [];
      selectedIndexes := [];
    }

    method SetToDoList(l: ToDoList)
      modifies this
      ensures GetToDoList() == l && selectedIndexes == old(selectedIndexes)
    {
      events, deadlines, floats, completed := l.events, l.deadlines, l.floats, l.completed;
    }

    method AddTask(t: Task) returns (added: bool)
      requires Valid()
      modifies this
      ensures Valid()
      ensures added <==> !IsDuplicate(old(GetToDoList()), task.taskChar, t)
      ensures GetToDoList() == (if added then AddTo(old(GetToDoList()), task.taskChar, t) else old(GetToDoList()))
      ensures selectedIndexes == old(selectedIndexes)
    {
      added := !IsDuplicate(GetToDoList(), task.taskChar, t);
      if added {
        SetToDoList(AddTo(GetToDoList(), task.taskChar, t));
      }
    }

    method UpdateTask(from: ListChar, target: Task, edited: Task) returns (updated: bool)
      requires Valid()
      modifies this
      ensures Valid()
      ensures var u := Update(old(GetToDoList()), task.taskChar, from, target, edited);
        updated == u.Some? && GetToDoList() == (if updated then u.value else old(GetToDoList()))
      ensures selectedIndexes == old(selectedIndexes)
    {
      var u := Update(GetToDoList(), task.taskChar, from, target, edited);
      updated := u.Some?;
      if updated {
        SetToDoList(u.value);
      }
    }

    method CompleteTask(t: Task)
      requires Valid()
      modifies this
      ensures Valid()
      ensures GetToDoList() == CompleteOne(old(GetToDoList()), task.taskChar, t)
      ensures selectedIndexes == old(selectedIndexes)
    {
      SetToDoList(CompleteOne(GetToDoList(), task.taskChar, t));
    }

    method UpdateSelectedIndexes(indexes: seq<TaskIndex>)
      modifies this
      ensures selectedIndexes == indexes && GetToDoList() == old(GetToDoList())
    {
      selectedIndexes := indexes;
    }
  }
}
