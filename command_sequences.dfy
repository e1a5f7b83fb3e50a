/** What one command leaves behind for the next: sequences of two commands. */
module CommandSequences {
  import opened Tasks
  import opened ToDo
  import opened Commands
  import Add
  import Complete

  /**
   * `add` followed by `done` with no index: the selection add recorded is a
   * 0-based position that done reads as 1-based, so done resolves the task
   * before the one just added, or throws when the list was empty.
   */
  lemma AddThenDoneMissesAddedTask(l: ToDoList, cat: Task -> PendingChar, t: Task)
    requires !IsDuplicate(l, cat, t)
    ensures var after := AddTo(l, cat, t);
      var list := l.ListFromChar(cat(t));
      var res := Complete.ResolveFrom(after, [ZeroBasedIndex(after, cat, t)]);
      && (list == [] ==> res == Complete.Rejected(IndexOutOfBounds))
      && (list != [] ==> res == Complete.Resolved([list[|list| - 1]]) && list[|list| - 1] != t)
  {
    Add.AddedTaskSelectedAtOldLength(l, cat, t);
    var after := AddTo(l, cat, t);
    var list := l.ListFromChar(cat(t));
    assert after.ListFromChar(cat(t)) == list + [t];
    if list != [] {
      assert (list + [t])[|list| - 1] == list[|list| - 1];
    }
  }
}
