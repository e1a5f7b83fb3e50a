/**
 * The bounded undo history that every undoable command shares. In the source
 * it is a pair of static lists on UndoableCommand, one of to-do list
 * snapshots and one of command results, appended to by the updateUndoLists
 * copy of each command; here it is one History object handed to every
 * command's Execute.
 */
module Undo {
  import opened ToDo

  const UNDO_HISTORY_SIZE: nat := 3
  const ITEM_TO_BE_REMOVED_FROM_HISTORY: nat := 0

  function Min(a: int, b: int): int
  {
    if a < b then a else b
  }

  /** List.remove(int): s without its entry at position i. */
  function RemoveAt<T>(s: seq<T>, i: nat): seq<T>
    requires i < |s|
  {
    s[..i] + s[i + 1..]
  }

  /** The newest UNDO_HISTORY_SIZE entries of t (all of t when it is shorter), oldest first. */
  function Newest<T>(t: seq<T>): (r: seq<T>)
    ensures |r| == Min(|t|, UNDO_HISTORY_SIZE)
  {
    t[|t| - Min(|t|, UNDO_HISTORY_SIZE)..]
  }

  /**
   * One updateUndoLists step on one history list: a list that is full loses
   * its entry at ITEM_TO_BE_REMOVED_FROM_HISTORY, then x is appended.
   */
  function Pushed<T>(s: seq<T>, x: T): (r: seq<T>)
    ensures |r| == (if |s| >= UNDO_HISTORY_SIZE then |s| else |s| + 1)
    ensures r[|r| - 1] == x
    ensures |s| <= UNDO_HISTORY_SIZE ==> r == Newest(s + [x])
  {
    if |s| >= UNDO_HISTORY_SIZE then RemoveAt(s, ITEM_TO_BE_REMOVED_FROM_HISTORY) + [x] else s + [x]
  }

  /** A history list after updateUndoLists has run once for each entry of xs, in order. */
  function PushAll<T>(s: seq<T>, xs: seq<T>): seq<T>
    decreases |xs|
  {
    if xs == [] then s else PushAll(Pushed(s, xs[0]), xs[1..])
  }

  /** Keeping the newest entries, then appending, then keeping the newest, loses nothing more. */
  lemma NewestOfNewest<T>(t: seq<T>, u: seq<T>)
    ensures Newest(Newest(t) + u) == Newest(t + u)
  {
    var a := Newest(t);
    var d := |t| - |a|;
    assert a + u == (t + u)[d..];
    assert Min(|a + u|, UNDO_HISTORY_SIZE) == Min(|t + u|, UNDO_HISTORY_SIZE);
  }

  /**
   * However many commands succeed, the history holds the newest
   * UNDO_HISTORY_SIZE of all entries ever pushed (or all of them), oldest first.
   */
  lemma {:induction false} PushAllKeepsNewest<T>(s: seq<T>, xs: seq<T>)
    requires |s| <= UNDO_HISTORY_SIZE
    ensures PushAll(s, xs) == Newest(s + xs)
    decreases |xs|
  {
    if xs == [] {
      assert s + xs == s;
    } else {
      var rest := xs[1..];
      assert s + [xs[0]] + rest == s + xs by {
        assert xs == [xs[0]] + rest;
      }
      PushAllKeepsNewest(Pushed(s, xs[0]), rest);
      NewestOfNewest(s + [xs[0]], rest);
    }
  }

  /** The two history lists read as one list of (snapshot, result) entries. */
  function Zip<A, B>(a: seq<A>, b: seq<B>): (z: seq<(A, B)>)
    requires |a| == |b|
    ensures |z| == |a|
    ensures forall k :: 0 <= k < |z| ==> z[k] == (a[k], b[k])
  {
    seq(|a|, k requires 0 <= k < |a| => (a[k], b[k]))
  }

  /**
   * Pushing onto the two parallel lists is pushing one (snapshot, result)
   * entry: the lists never fall out of step.
   */
  lemma PushedKeepsEntriesAligned<A, B>(a: seq<A>, b: seq<B>, x: A, y: B)
    requires |a| == |b|
    ensures |Pushed(a, x)| == |Pushed(b, y)|
    ensures Zip(Pushed(a, x), Pushed(b, y)) == Pushed(Zip(a, b), (x, y))
  {
    var p := Pushed(Zip(a, b), (x, y));
    var q := Zip(Pushed(a, x), Pushed(b, y));
    if |a| >= UNDO_HISTORY_SIZE {
      forall k | 0 <= k < |q| ensures q[k] == p[k] {
        if k < |q| - 1 {
          assert Pushed(a, x)[k] == a[k + 1];
        }
      }
    } else {
      forall k | 0 <= k < |q| ensures q[k] == p[k] {
      }
    }
  }

  /** The shared history: previousToDoLists and previousCommandResults. */
  class History {
    var previousToDoLists: seq<ToDoList>
    var previousCommandResults: seq<string>
    /** False while the two static lists are still null: before resetLists or the first push. */
    var initialised: bool

    ghost predicate Valid()
      reads this
    {
      && |previousToDoLists| == |previousCommandResults| <= UNDO_HISTORY_SIZE
      && (!initialised ==> previousToDoLists == [])
    }

    /** The history as (snapshot, result) entries, oldest first. */
    ghost function Entries(): seq<(ToDoList, string)>
      reads this
      requires Valid()
    {
      Zip(previousToDoLists, previousCommandResults)
    }

    /** The lists as the program starts: not yet created. */
    constructor ()
      ensures Valid() && !initialised
      ensures previousToDoLists == [] && previousCommandResults == []
    {
      previousToDoLists, previousCommandResults := [], [];
      initialised := false;
    }

    /** UndoableCommand.resetLists: both lists become new and empty. */
    method ResetLists()
      modifies this
      ensures Valid() && initialised
      ensures previousToDoLists == [] && previousCommandResults == []
    {
      previousToDoLists, previousCommandResults := [], [];
      initialised := true;
    }

    /**
     * updateUndoLists: creates both lists if they are not there yet, evicts
     * the oldest entry when UNDO_HISTORY_SIZE are held, and appends
     * (snapshot, result) as the newest entry.
     */
    method Push(snapshot: ToDoList, result: string)
      requires Valid()
      modifies this
      ensures Valid() && initialised
      ensures previousToDoLists == Pushed(old(previousToDoLists), snapshot)
      ensures previousCommandResults == Pushed(old(previousCommandResults), result)
      ensures Entries() == Pushed(old(Entries()), (snapshot, result))
    {
      PushedKeepsEntriesAligned(previousToDoLists, previousCommandResults, snapshot, result);
      if !initialised {
        previousToDoLists := [];
        previousCommandResults := [];
        initialised := true;
      }
      if |previousToDoLists| >= UNDO_HISTORY_SIZE {
        previousToDoLists := RemoveAt(previousToDoLists, ITEM_TO_BE_REMOVED_FROM_HISTORY);
        previousCommandResults := RemoveAt(previousCommandResults, ITEM_TO_BE_REMOVED_FROM_HISTORY);
      }
      previousToDoLists := previousToDoLists + [snapshot];
      previousCommandResults := previousCommandResults + [result];
    }
  }
}
