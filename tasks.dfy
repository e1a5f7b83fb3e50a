/**
 * The task entities the commands work on. The Task, Tag and TaskIndex classes
 * of the to-do list are not part of this model: they are represented by the
 * fields the commands read and write, and the Task methods the commands call
 * are kept uninterpreted in TaskMethods.
 */
module Tasks {
  import opened Wrappers

  /** The category letters a TaskIndex may carry: events, deadlines, floating tasks, completed tasks. */
  type ListChar = c: char | c == 'e' || c == 'd' || c == 'f' || c == 'c' witness 'e'

  /** The letters Task.getTaskChar gives: the three pending categories. */
  type PendingChar = c: ListChar | c != 'c' witness 'e'

  datatype Tag = Tag(name: string)

  /**
   * A task, each value object represented by the text it was built from.
   * Equality is full-field equality, which is how duplicates are detected.
   */
  datatype Task = Task(
    title: string,
    venue: Option<string>,
    startTime: Option<string>,
    endTime: Option<string>,
    urgencyLevel: Option<string>,
    description: Option<string>,
    tags: seq<Tag>)

  /** A category letter and a task number within that category's list. */
  datatype TaskIndex = TaskIndex(taskChar: ListChar, taskNumber: int)

  /**
   * The methods of Task whose source is not part of this model: the category
   * letter (getTaskChar), the text toString gives, and getTitleFormattedString.
   */
  datatype TaskMethods = TaskMethods(
    taskChar: Task -> PendingChar,
    text: Task -> string,
    titleText: Task -> string)

  /** List.indexOf: the position of the first task equal to t, or -1 when there is none. */
  function IndexOf(s: seq<Task>, t: Task): (i: int)
    ensures -1 <= i < |s|
    ensures i == -1 <==> t !in s
    ensures 0 <= i ==> s[i] == t && t !in s[..i]
  {
    if s == [] then -1
    else if s[0] == t then 0
    else
      var j := IndexOf(s[1..], t);
      if j == -1 then -1
      else
        assert s[..j + 1] == [s[0]] + s[1..][..j];
        j + 1
  }

  /** A task appended to a list that did not hold it is found at the old length. */
  lemma {:induction false} IndexOfAppended(s: seq<Task>, t: Task)
    requires t !in s
    ensures IndexOf(s + [t], t) == |s|
  {
    if s != [] {
      assert (s + [t])[1..] == s[1..] + [t];
      IndexOfAppended(s[1..], t);
    }
  }

  /** List.remove(Object): the list without its first task equal to t, if there is one. */
  function RemoveFirst(s: seq<Task>, t: Task): (r: seq<Task>)
    ensures t !in s ==> r == s
    ensures multiset(r) + multiset{t} == multiset(s) || t !in s
    ensures forall u :: u != t ==> (u in r <==> u in s)
  {
    if s == [] then []
    else if s[0] == t then
      assert s == [s[0]] + s[1..];
      s[1..]
    else
      assert s == [s[0]] + s[1..];
      [s[0]] + RemoveFirst(s[1..], t)
  }

  /** List.set at the position of the first task equal to t: that task becomes e, in place. */
  function ReplaceFirst(s: seq<Task>, t: Task, e: Task): (r: seq<Task>)
    ensures |r| == |s|
    ensures forall k :: 0 <= k < |r| ==> r[k] == s[k] || r[k] == e
    ensures t in s ==> e in r
    ensures t !in s ==> r == s
  {
    var i := IndexOf(s, t);
    if i < 0 then s else s[i := e]
  }

  /** The first position holding t, and only that position, now holds e. */
  lemma ReplaceFirstAtIndex(s: seq<Task>, t: Task, e: Task)
    requires t in s
    ensures var r := ReplaceFirst(s, t, e);
      && r[IndexOf(s, t)] == e
      && forall k :: 0 <= k < |s| && k != IndexOf(s, t) ==> r[k] == s[k]
  {
  }
}
