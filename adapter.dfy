/**
  The list adapter (RecyclerViewAdapter) as far as it keeps the ordered list
  of tasks: the list itself, the undo guard of the swipe-to-delete snackbar,
  and the table it writes positions and deletions to. Views, animations,
  logging and alarms are not part of this model.
 */
module Adapter {
  import opened Tasks
  import opened Database
  import opened TaskList

  /** What one snackbar removal keeps for its undo and dismiss callbacks:
      the removed task's id and time stamp, and whether it is still removed. */
  class PendingRemoval {
    const taskId: int
    const timeStamp: int
    var isRemoved: bool

    constructor (taskId: int, timeStamp: int)
      ensures this.taskId == taskId && this.timeStamp == timeStamp && isRemoved
    {
      this.taskId := taskId;
      this.timeStamp := timeStamp;
      isRemoved := true;
    }
  }

  class TaskListAdapter {
    /** The ordered list shown to the user. */
    var tasks: seq<Task>
    /** Whether the last snackbar's undo may no longer re-insert. */
    var cancelButtonIsClicked: bool
    /** The table the adapter deletes from and writes positions to. */
    const db: TaskTable

    constructor (db: TaskTable)
      ensures this.db == db && tasks == [] && cancelButtonIsClicked
    {
      this.db := db;
      tasks := [];
      cancelButtonIsClicked := true;
    }

    /** addTask(item): appends; every earlier task stays where it was. */
    method AddTask(item: Task)
      modifies this
      ensures tasks == old(tasks) + [item]
      ensures cancelButtonIsClicked == old(cancelButtonIsClicked)
    {
      tasks := tasks + [item];
    }

    /** addTask(item, position): inserts at the index, or, where the list
        would throw IndexOutOfBoundsException, reports failure and leaves the
        list as it was. */
    method AddTaskAt(item: Task, p: int) returns (ok: bool)
      modifies this
      ensures ok <==> 0 <= p <= |old(tasks)|
      ensures ok ==> tasks == InsertAt(old(tasks), p, item)
      ensures !ok ==> tasks == old(tasks)
      ensures cancelButtonIsClicked == old(cancelButtonIsClicked)
    {
      ok := 0 <= p <= |tasks|;
      if ok {
        tasks := InsertAt(tasks, p, item);
      }
    }

    /** updateTask(task, position): replaces the task at the index only. */
    method UpdateTask(updatedTask: Task, p: int)
      requires 0 <= p < |tasks|
      modifies this
      ensures |tasks| == |old(tasks)| && tasks[p] == updatedTask
      ensures forall k :: 0 <= k < |tasks| && k != p ==> tasks[k] == old(tasks)[k]
      ensures cancelButtonIsClicked == old(cancelButtonIsClicked)
    {
      tasks := tasks[p := updatedTask];
    }

    /** removeTask(position): removes the task from the list and its row from
        the table, then renumbers the table (saveTasksOrderFromDB). */
    method RemoveTask(p: int)
      requires 0 <= p < |tasks| && db.Valid()
      modifies this, db
      ensures tasks == RemoveAt(old(tasks), p)
      ensures db.Valid() && db.nextId == old(db.nextId)
      ensures DenselyRenumbered(old(db.rows) - {old(tasks)[p].id}, db.rows)
      ensures cancelButtonIsClicked == old(cancelButtonIsClicked)
    {
      var taskId := tasks[p].id;
      tasks := RemoveAt(tasks, p);
      db.DeleteTask(taskId);
      SaveTasksOrderFromDB();
    }

    /** removeTask(position, recyclerView): removes the task from the list at
        once, arms the undo guard and hands back the snackbar's state; the
        row stays in the table until Dismiss. */
    method RemoveTaskWithUndo(p: int) returns (h: PendingRemoval)
      requires 0 <= p < |tasks|
      modifies this
      ensures fresh(h) && h.isRemoved
      ensures h.taskId == old(tasks)[p].id && h.timeStamp == old(tasks)[p].timeStamp
      ensures tasks == RemoveAt(old(tasks), p)
      ensures !cancelButtonIsClicked
    {
      h := new PendingRemoval(tasks[p].id, tasks[p].timeStamp);
      cancelButtonIsClicked := false;
      tasks := RemoveAt(tasks, p);
    }

    /** The snackbar's undo action. Only the first undo after a removal does
        anything: it disarms the guard, reads the task back from the table and
        re-inserts it at its stored position. A row that is gone, or a stored
        position outside the list, makes the source throw after disarming the
        guard; here nothing is re-inserted. */
    method Undo(h: PendingRemoval) returns (reinserted: bool)
      modifies this, h
      ensures cancelButtonIsClicked
      ensures old(cancelButtonIsClicked) ==> !reinserted
      ensures reinserted <==>
        && !old(cancelButtonIsClicked)
        && h.taskId in db.rows && 0 <= db.rows[h.taskId].position <= |old(tasks)|
      ensures reinserted ==>
        && tasks == InsertAt(old(tasks), db.rows[h.taskId].position, TaskOf(h.taskId, db.rows[h.taskId]))
        && !h.isRemoved
      ensures !reinserted ==> tasks == old(tasks) && h.isRemoved == old(h.isRemoved)
    {
      reinserted := false;
      if !cancelButtonIsClicked {
        cancelButtonIsClicked := true;
        var found := db.GetTask(h.taskId);
        if found.Some? {
          var task := found.value;
          reinserted := AddTaskAt(task, task.position);
          if reinserted {
            h.isRemoved := false;
          }
        }
      }
    }

    /** The snackbar leaving the screen: a removal that was not undone now
        deletes the row and renumbers the table; an undone one changes
        nothing. */
    method Dismiss(h: PendingRemoval)
      requires db.Valid()
      modifies db
      ensures db.Valid() && db.nextId == old(db.nextId)
      ensures h.isRemoved ==> DenselyRenumbered(old(db.rows) - {h.taskId}, db.rows)
      ensures !h.isRemoved ==> db.rows == old(db.rows)
    {
      if h.isRemoved {
        db.DeleteTask(h.taskId);
        SaveTasksOrderFromDB();
      }
    }

    /** removeAllTasks: the list is empty afterwards. */
    method RemoveAllTasks()
      modifies this
      ensures tasks == []
      ensures cancelButtonIsClicked == old(cancelButtonIsClicked)
    {
      if |tasks| != 0 {
        tasks := [];
      }
    }

    /** reloadTasks: empties the list and appends a backup of it task by
        task, so contents and order come back unchanged. */
    method ReloadTasks()
      modifies this
      ensures tasks == old(tasks)
      ensures cancelButtonIsClicked == old(cancelButtonIsClicked)
    {
      var backup := tasks;
      RemoveAllTasks();
      var k := 0;
      while k < |backup|
        invariant 0 <= k <= |backup|
        invariant tasks == backup[..k]
        invariant cancelButtonIsClicked == old(cancelButtonIsClicked)
      {
        AddTask(backup[k]);
        assert backup[..k + 1] == backup[..k] + [backup[k]];
        k := k + 1;
      }
      assert backup[..k] == backup;
    }

    /** moveTask(from, to): carries the task at `from` to `to` one
        neighbour swap at a time (MoveDown or MoveUp), then saves the order
        of the whole list. When `from` == `to` both loops are empty, so only
        the save-order pass runs, whatever the index. */
    method MoveTask(from: int, to: int)
      requires from == to || (0 <= from < |tasks| && 0 <= to < |tasks|)
      requires db.Valid()
      modifies this, db
      ensures from != to ==> tasks == OrderSaved(Moved(old(tasks), from, to))
      ensures from == to ==> tasks == OrderSaved(old(tasks))
      ensures db.Valid() && db.nextId == old(db.nextId)
      ensures db.rows == WritePositions(old(db.rows), tasks)
      ensures cancelButtonIsClicked == old(cancelButtonIsClicked)
    {
      if from < to {
        MoveDown(from, to);
      } else if to < from {
        MoveUp(from, to);
      }
      SaveTasksOrderFromRV();
    }

    /** The downward loop of moveTask: swap i and i + 1 and give both their
        index as position, for i from `from` up to `to` - 1. */
    method MoveDown(from: int, to: int)
      requires 0 <= from < to < |tasks|
      modifies this
      ensures tasks == Moved(old(tasks), from, to)
      ensures cancelButtonIsClicked == old(cancelButtonIsClicked)
    {
      var i := from;
      while i < to
        invariant i <= to && CarriedDown(old(tasks), tasks, from, i)
        invariant cancelButtonIsClicked == old(cancelButtonIsClicked)
      {
        MoveDownStep(old(tasks), tasks, from, i);
        tasks := tasks[i := tasks[i + 1]][i + 1 := tasks[i]];
        tasks := tasks[i := tasks[i].(position := i)];
        tasks := tasks[i + 1 := tasks[i + 1].(position := i + 1)];
        i := i + 1;
      }
      CarriedDownIsMoved(old(tasks), tasks, from, to);
    }

    /** The upward loop of moveTask: swap i and i - 1 and give both their
        index as position, for i from `from` down to `to` + 1; nothing
        happens when `from` == `to`. */
    method MoveUp(from: int, to: int)
      requires 0 <= to <= from < |tasks|
      modifies this
      ensures tasks == Moved(old(tasks), from, to)
      ensures cancelButtonIsClicked == old(cancelButtonIsClicked)
    {
      var i := from;
      while i > to
        invariant to <= i && CarriedUp(old(tasks), tasks, from, i)
        invariant cancelButtonIsClicked == old(cancelButtonIsClicked)
      {
        MoveUpStep(old(tasks), tasks, from, i);
        tasks := tasks[i := tasks[i - 1]][i - 1 := tasks[i]];
        tasks := tasks[i := tasks[i].(position := i)];
        tasks := tasks[i - 1 := tasks[i - 1].(position := i - 1)];
        i := i - 1;
      }
      CarriedUpIsMoved(old(tasks), tasks, from, to);
    }

    /** saveTasksOrderFromRV: gives each task of the list, in order, the
        index at which the list first holds it, and writes that position to
        the table (TasksOrderUpdate, run synchronously here). */
    method SaveTasksOrderFromRV()
      requires db.Valid()
      modifies this, db
      ensures tasks == OrderSaved(old(tasks))
      ensures db.Valid() && db.nextId == old(db.nextId)
      ensures db.rows == WritePositions(old(db.rows), tasks)
      ensures cancelButtonIsClicked == old(cancelButtonIsClicked)
    {
      var k := 0;
      while k < |tasks|
        invariant SavedThrough(old(tasks), tasks, k, old(db.rows), db.rows)
        invariant db.Valid() && db.nextId == old(db.nextId)
        invariant cancelButtonIsClicked == old(cancelButtonIsClicked)
      {
        SaveLoopStep(old(tasks), tasks, k, old(db.rows), db.rows);
        var task := SavedTask(tasks, k);
        tasks := tasks[k := task];
        db.UpdateTaskPosition(task);
        k := k + 1;
      }
      SaveLoopDone(old(tasks), tasks, old(db.rows), db.rows);
    }

    /** saveTasksOrderFromDB: reads every row sorted by position, gives each
        the index at which that listing first holds it, and writes it back:
        the table ends up numbered 0..N-1 in its old position order. */
    method SaveTasksOrderFromDB()
      requires db.Valid()
      modifies db
      ensures db.Valid() && db.nextId == old(db.nextId)
      ensures DenselyRenumbered(old(db.rows), db.rows)
    {
      var list := db.GetAllTasks();
      ghost var listing := list;
      var k := 0;
      while k < |list|
        invariant SavedThrough(listing, list, k, old(db.rows), db.rows)
        invariant db.Valid() && db.nextId == old(db.nextId)
      {
        SaveLoopStep(listing, list, k, old(db.rows), db.rows);
        var task := list[k].(position := IndexOf(list, list[k]));
        list := list[k := task];
        db.UpdateTaskPosition(task);
        k := k + 1;
      }
      SaveLoopDone(listing, list, old(db.rows), db.rows);
      OrderSavedDistinct(listing);
      RenumberedListingIsDense(old(db.rows), listing);
    }
  }

  /** moveTask's downward loop has carried the task from `from` to i: the
      tasks it passed stand one place up with their index as position. */
  ghost predicate CarriedDown(before: seq<Task>, cur: seq<Task>, from: int, i: int)
  {
    && 0 <= from <= i < |cur| == |before|
    && (forall k :: 0 <= k < |cur| && (k < from || i < k) ==> cur[k] == before[k])
    && (forall k :: from <= k < i ==> cur[k] == before[k + 1].(position := k))
    && cur[i] == if i == from then before[from] else before[from].(position := i)
  }

  /** moveTask's upward loop has carried the task from `from` to i. */
  ghost predicate CarriedUp(before: seq<Task>, cur: seq<Task>, from: int, i: int)
  {
    && 0 <= i <= from < |cur| == |before|
    && (forall k :: 0 <= k < |cur| && (k < i || from < k) ==> cur[k] == before[k])
    && (forall k :: i < k <= from ==> cur[k] == before[k - 1].(position := k))
    && cur[i] == if i == from then before[from] else before[from].(position := i)
  }

  /** One turn of the downward loop: swap i and i + 1, number both. */
  lemma MoveDownStep(before: seq<Task>, cur: seq<Task>, from: int, i: int)
    requires CarriedDown(before, cur, from, i) && i + 1 < |cur|
    ensures var c1 := cur[i := cur[i + 1]][i + 1 := cur[i]];
      var c2 := c1[i := c1[i].(position := i)];
      CarriedDown(before, c2[i + 1 := c2[i + 1].(position := i + 1)], from, i + 1)
  {
  }

  /** One turn of the upward loop: swap i and i - 1, number both. */
  lemma MoveUpStep(before: seq<Task>, cur: seq<Task>, from: int, i: int)
    requires CarriedUp(before, cur, from, i) && 0 < i
    ensures var c1 := cur[i := cur[i - 1]][i - 1 := cur[i]];
      var c2 := c1[i := c1[i].(position := i)];
      CarriedUp(before, c2[i - 1 := c2[i - 1].(position := i - 1)], from, i - 1)
  {
  }

  /** The state the downward loop leaves is Moved(before, from, to). */
  lemma CarriedDownIsMoved(before: seq<Task>, after: seq<Task>, from: int, to: int)
    requires from < to && CarriedDown(before, after, from, to)
    ensures after == Moved(before, from, to)
  {
    var m := Moved(before, from, to);
    var r := Reorder(before, from, to);
    assert Min(from, to) == from && Max(from, to) == to;
    forall k | 0 <= k < |after| ensures after[k] == m[k] {
      assert m[k] == r[k].(position := m[k].position);
      if from <= k < to {
        assert r[k] == before[k + 1];
      }
    }
  }

  /** The state the upward loop leaves is Moved(before, from, to). */
  lemma CarriedUpIsMoved(before: seq<Task>, after: seq<Task>, from: int, to: int)
    requires to <= from && CarriedUp(before, after, from, to)
    ensures after == Moved(before, from, to)
  {
    var m := Moved(before, from, to);
    if to < from {
      var r := Reorder(before, from, to);
      assert Min(from, to) == to && Max(from, to) == from;
      forall k | 0 <= k < |after| ensures after[k] == m[k] {
        assert m[k] == r[k].(position := m[k].position);
        if to < k <= from {
          assert r[k] == before[k - 1];
        }
      }
    }
  }
}
