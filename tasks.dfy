/**
  The values the to-do list works with: a task as the list and the table
  hand it around (ModelTask), and a row of the tasks table keyed by its id.
 */
module Tasks {

  datatype Option<T> = None | Some(value: T)

  /** A to-do task: store-assigned id, title, due date (epoch ms, 0 = none),
      display position and the time stamp used as its alarm key. */
  datatype Task = Task(id: int, title: string, date: int, position: int, timeStamp: int)

  /** The columns of one row of the tasks table, apart from its id. */
  datatype Row = Row(title: string, date: int, position: int, timeStamp: int)

  /** The column values saveTask writes for a task: everything but its id. */
  function RowOf(t: Task): (r: Row)
    ensures TaskOf(t.id, r) == t
  {
    Row(t.title, t.date, t.position, t.timeStamp)
  }

  /** The task getTask and getAllTasks build from a row and its id. */
  function TaskOf(id: int, r: Row): Task
  {
    Task(id, r.title, r.date, r.position, r.timeStamp)
  }

  /** Building a task from a row and turning it back into column values
      gives the row and the id it was read with. */
  lemma TaskOfRoundTrip(id: int, r: Row)
    ensures TaskOf(id, r).id == id && RowOf(TaskOf(id, r)) == r
  {
  }

  /** No two tasks of the list share an id. */
  predicate DistinctIds(s: seq<Task>)
  {
    forall i, j :: 0 <= i < j < |s| ==> s[i].id != s[j].id
  }
}
