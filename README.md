# To-do list: ordered task list and tasks table

This project models the core of an Android to-do list application: the
adapter that keeps the ordered list of tasks the user sees, and the
database helper that stores one row per task. A task carries a
store-assigned id, a title, a due date, a display position and a time
stamp used as its alarm key.

- `tasks.dfy` (module `Tasks`): the task value, the table row and the
  conversions between the two.
- `database.dfy` (module `Database`): the tasks table as a map from id to
  row with the AUTOINCREMENT counter (class `TaskTable`), its CRUD
  operations, the cursor scan that reads every row and the bubble sort by
  position that `getAllTasks` runs on the result.
- `task_list.dfy` (module `TaskList`): the list operations as functions on
  sequences (insert at an index, remove at an index, the drag-and-drop
  reorder, the position renumbering of a move, the save-order pass) and the
  lemmas that say what they mean.
- `adapter.dfy` (module `Adapter`): the adapter as a class
  (`TaskListAdapter`) whose list is a `seq<Task>` field, with the undo guard
  of swipe-to-delete and the state one snackbar keeps (`PendingRemoval`).
  Each method is proved against the functions of `TaskList` and the table
  operations of `Database`.

Main results:

- moving a task is a permutation: the task lands at the target index and
  every task between the two indices shifts one place, the rest stay where
  they were, and moving back restores the order (`Reorder`,
  `ReorderRoundTrip`, `MoveRoundTrip`);
- the swap loops of `moveTask` compute exactly that reorder, with every task
  of the moved range numbered by its index (`MoveDown`, `MoveUp`);
- the save-order pass after a move numbers every task by its index, so the
  positions are 0..N-1, whenever task ids are distinct (`MovedThenSaved`,
  `OrderSavedDistinct`), and `moveTask(i, j)` followed by `moveTask(j, i)`
  gives the original order numbered 0..N-1 (`MoveTaskRoundTrip`);
- the table listing holds every row once, sorted by position, and the
  bubble sort keeps the read order of tasks with equal position
  (`SortByPosition`, `GetAllTasks`);
- after a deletion the table is renumbered densely 0..N-1 in its old
  position order (`RemoveTask`, `Dismiss`, `RenumberedListingIsDense`);
- the undo of a swipe-to-delete re-inserts only once, and re-inserting the
  removed task at its old index gives the list back (`Undo`,
  `RemoveThenInsert`).

## Model

| member | source | states |
|---|---|---|
| TaskList.InsertAt | app/src/main/java/vn/com/detai/todolist/adapter/RecyclerViewAdapter.kt:64-65 | the list grows by one, the item lands at the index, tasks before it stay, and tasks from it on move one place right |
| TaskList.InsertAtMultiset | app/src/main/java/vn/com/detai/todolist/adapter/RecyclerViewAdapter.kt:65 | inserting adds exactly the item to the multiset of tasks |
| TaskList.RemoveAt | app/src/main/java/vn/com/detai/todolist/adapter/RecyclerViewAdapter.kt:93 | the list shrinks by one, tasks before the index stay, and tasks after it move one place left |
| TaskList.RemoveAtMultiset | app/src/main/java/vn/com/detai/todolist/adapter/RecyclerViewAdapter.kt:93 | removing takes exactly the task at the index out of the multiset of tasks |
| TaskList.RemoveThenInsert | app/src/main/java/vn/com/detai/todolist/adapter/RecyclerViewAdapter.kt:93-101 | removing the task at an index and inserting it back at that index gives the original list |
| TaskList.ReorderSourceInverse | app/src/main/java/vn/com/detai/todolist/adapter/RecyclerViewAdapter.kt:164-184 | the index map of a move from `to` back to `from` undoes the index map of the move from `from` to `to` |
| TaskList.Reorder | app/src/main/java/vn/com/detai/todolist/adapter/RecyclerViewAdapter.kt:164-184 | the moved task ends at the target index and every task comes from the index the move's index map names |
| TaskList.ReorderIndices | app/src/main/java/vn/com/detai/todolist/adapter/RecyclerViewAdapter.kt:164-184 | removing the task at `from` and inserting it at `to` takes every index's task from the index the move's index map names |
| TaskList.ReorderPermutes | app/src/main/java/vn/com/detai/todolist/adapter/RecyclerViewAdapter.kt:164-184 | a move is a permutation: the multiset of tasks is unchanged |
| TaskList.ReorderRoundTrip | app/src/main/java/vn/com/detai/todolist/adapter/RecyclerViewAdapter.kt:164-184 | moving from i to j and then from j to i gives the original list |
| TaskList.ReorderKeepsDistinct | app/src/main/java/vn/com/detai/todolist/adapter/RecyclerViewAdapter.kt:164-184 | a move keeps task ids pairwise distinct |
| TaskList.Moved | app/src/main/java/vn/com/detai/todolist/adapter/RecyclerViewAdapter.kt:164-184 | the list after the swap loops is the reorder up to positions, every task between the two indices has its index as position, tasks outside the range are untouched, and a move to the same index changes nothing |
| TaskList.NumberRange | app/src/main/java/vn/com/detai/todolist/adapter/RecyclerViewAdapter.kt:164-184 | every task of the range gets its index as position, and every task outside it is untouched |
| TaskList.MoveRoundTrip | app/src/main/java/vn/com/detai/todolist/adapter/RecyclerViewAdapter.kt:164-184 | two moves there and back restore the original order; only the tasks of the range are renumbered to their index |
| TaskList.MoveRoundTripAt | app/src/main/java/vn/com/detai/todolist/adapter/RecyclerViewAdapter.kt:164-184 | the same, index by index |
| TaskList.IndexOf | app/src/main/java/vn/com/detai/todolist/adapter/RecyclerViewAdapter.kt:194 | the first index holding the task, or -1 exactly when the task is absent |
| TaskList.Renumber | app/src/main/java/vn/com/detai/todolist/adapter/RecyclerViewAdapter.kt:192-199 | every task keeps everything but its position, which becomes its index |
| TaskList.OrderSaved | app/src/main/java/vn/com/detai/todolist/adapter/RecyclerViewAdapter.kt:193-194 | the save-order pass keeps every task except for its position, which lies between 0 and the task's own index |
| TaskList.IndexOfPrefix | app/src/main/java/vn/com/detai/todolist/adapter/RecyclerViewAdapter.kt:194 | looking a task up in the whole list finds what looking it up in a prefix that holds it finds |
| TaskList.OrderSavedSnoc | app/src/main/java/vn/com/detai/todolist/adapter/RecyclerViewAdapter.kt:193-194 | the save-order pass of a prefix one task longer is the pass of the shorter prefix followed by that task with the index at which it is first found |
| TaskList.SaveStep | app/src/main/java/vn/com/detai/todolist/adapter/RecyclerViewAdapter.kt:193-194 | one turn of the save-order loop, looking the task up in the partly renumbered whole list, extends the save-order pass of the prefix by one task |
| TaskList.SavedTask | app/src/main/java/vn/com/detai/todolist/adapter/RecyclerViewAdapter.kt:194 | the task the loop writes is the task at index k with a new position that lies between 0 and k |
| TaskList.SaveLoopStep | app/src/main/java/vn/com/detai/todolist/adapter/RecyclerViewAdapter.kt:193-197 | one turn of the loop, with its position write, keeps the loop's invariant for the next index |
| TaskList.SaveLoopDone | app/src/main/java/vn/com/detai/todolist/adapter/RecyclerViewAdapter.kt:193-198 | when the loop ends the list is the save-order pass of the old list and the table holds exactly the positions written for it |
| TaskList.OrderSavedDistinct | app/src/main/java/vn/com/detai/todolist/adapter/RecyclerViewAdapter.kt:192-199 | with distinct ids the save-order pass numbers every task by its index, so positions are exactly 0..N-1 |
| TaskList.SameButPositionsDistinct | app/src/main/java/vn/com/detai/todolist/adapter/RecyclerViewAdapter.kt:168-169 | rewriting positions does not change which ids a list holds, so distinct ids stay distinct |
| TaskList.SameButPositionsRenumber | app/src/main/java/vn/com/detai/todolist/adapter/RecyclerViewAdapter.kt:192-199 | numbering two lists that differ only in positions gives the same list |
| TaskList.MovedThenSaved | app/src/main/java/vn/com/detai/todolist/adapter/RecyclerViewAdapter.kt:161-187 | with distinct ids, a move followed by its save-order pass yields the reordered list with every task's position equal to its index |
| TaskList.SameButPositionsReorder | app/src/main/java/vn/com/detai/todolist/adapter/RecyclerViewAdapter.kt:164-184 | moving in two lists that differ only in positions gives two lists that differ only in positions |
| TaskList.MoveTaskRoundTrip | app/src/main/java/vn/com/detai/todolist/adapter/RecyclerViewAdapter.kt:161-187 | with distinct ids, moveTask(i, j) and then moveTask(j, i), each with its save-order pass, give the original list with every task's position equal to its index |
| TaskList.RenumberedListingIsDense | app/src/main/java/vn/com/detai/todolist/adapter/RecyclerViewAdapter.kt:204-213 | writing back a sorted listing numbered by index keeps every row and every other column, gives positions exactly 0..N-1 with no two alike, and keeps the old position order |
| TaskList.IndexedPositionsInRange | app/src/main/java/vn/com/detai/todolist/adapter/RecyclerViewAdapter.kt:207-208 | when each listed task's row gets its listing index, every position lies in 0..N-1 |
| TaskList.IndexedPositionsDistinct | app/src/main/java/vn/com/detai/todolist/adapter/RecyclerViewAdapter.kt:207-208 | when each listed task's row gets its listing index, no two rows share a position |
| TaskList.IndexedPositionsOrdered | app/src/main/java/vn/com/detai/todolist/adapter/RecyclerViewAdapter.kt:205-208 | when a listing sorted by position gives each row its index, a row with a smaller old position gets a smaller new one |
| TaskList.SortedIndexOrder | app/src/main/java/vn/com/detai/todolist/database/DBHelper.kt:118-124 | in a list sorted by position, a task with a smaller position stands at a smaller index |
| Tasks.RowOf | app/src/main/java/vn/com/detai/todolist/database/DBHelper.kt:34-37 | the column values saveTask writes, read back with the task's id, give the task again |
| Tasks.TaskOfRoundTrip | app/src/main/java/vn/com/detai/todolist/database/DBHelper.kt:69-75 | the task getTask and getAllTasks build from a row carries the id it was read with, and its column values are the row |
| Database.TitleAndDateWritten | app/src/main/java/vn/com/detai/todolist/database/DBHelper.kt:49-54 | the table keeps its ids; only the row with the task's id changes, and in it only title and date |
| Database.PositionWritten | app/src/main/java/vn/com/detai/todolist/database/DBHelper.kt:140-143 | the table keeps its ids; only the row with the task's id changes, and in it only the position |
| Database.WritePositions | app/src/main/java/vn/com/detai/todolist/database/TasksOrderUpdate.kt:14-18 | one position write per task, in list order: no row is added or removed, and only positions change |
| Database.WriteStep | app/src/main/java/vn/com/detai/todolist/database/TasksOrderUpdate.kt:14-18 | the writes for a list one task longer are the writes for the shorter list followed by that task's write |
| Database.WritePositionsDistinct | app/src/main/java/vn/com/detai/todolist/database/TasksOrderUpdate.kt:14-18 | with distinct ids every row named in the list ends with that task's position and every other row is untouched |
| Database.AtPosition | app/src/main/java/vn/com/detai/todolist/database/DBHelper.kt:118-124 | the subsequence of tasks with a given position: no longer than the list, and every element is in the list with that position |
| Database.AtPositionConcat | app/src/main/java/vn/com/detai/todolist/database/DBHelper.kt:118-124 | the same-position subsequence of a concatenation is the concatenation of the parts' subsequences |
| Database.SwapKeepsAtPosition | app/src/main/java/vn/com/detai/todolist/database/DBHelper.kt:120-121 | swapping two neighbours of different position leaves every same-position subsequence as it was |
| Database.SwapKeepsAtPositionOf | app/src/main/java/vn/com/detai/todolist/database/DBHelper.kt:120-121 | the same for one position |
| Database.SwapStep | app/src/main/java/vn/com/detai/todolist/database/DBHelper.kt:119-122 | a swap of the inner loop keeps the sorted suffix and the stable reordering of the read list |
| Database.SwapKeepsDistinct | app/src/main/java/vn/com/detai/todolist/database/DBHelper.kt:121 | a swap keeps ids distinct |
| Database.SwapKeepsSettled | app/src/main/java/vn/com/detai/todolist/database/DBHelper.kt:119-122 | a swap before the sorted suffix leaves the suffix sorted and no smaller than anything before it |
| Database.PassStep | app/src/main/java/vn/com/detai/todolist/database/DBHelper.kt:120-122 | one compare-and-swap of the inner loop moves the largest position seen so far one place on, keeping the settled suffix and the stable reordering |
| Database.PassDone | app/src/main/java/vn/com/detai/todolist/database/DBHelper.kt:118-124 | at the end of a pass one more place at the end is settled and the list is still a stable reordering of the read list |
| Database.SettledIsSorted | app/src/main/java/vn/com/detai/todolist/database/DBHelper.kt:118-124 | once at most the first place is unsettled the list is sorted by position |
| Database.SortByPosition | app/src/main/java/vn/com/detai/todolist/database/DBHelper.kt:118-124 | the result is sorted by position, is a permutation of the input, keeps the input order of tasks with equal position, and keeps ids distinct |
| Database.ListingPermutation | app/src/main/java/vn/com/detai/todolist/database/DBHelper.kt:97-125 | a permutation with distinct ids of a list holding every row once holds every row once |
| Database.ScanCount | app/src/main/java/vn/com/detai/todolist/database/DBHelper.kt:104-115 | reading one more row grows the set of read ids by one |
| Database.ScanCovers | app/src/main/java/vn/com/detai/todolist/database/DBHelper.kt:104-115 | after reading one more row every read id still appears in the result |
| Database.ScanStep | app/src/main/java/vn/com/detai/todolist/database/DBHelper.kt:104-115 | reading one more row keeps the cursor loop's invariant |
| Database.TaskTable.constructor | app/src/main/java/vn/com/detai/todolist/database/DBHelper.kt:17-19 | a new table has no rows |
| Database.TaskTable.SaveTask | app/src/main/java/vn/com/detai/todolist/database/DBHelper.kt:29-44 | the returned id is positive and was not in the table; its row holds the task's title, date, position and time stamp; no other row changes |
| Database.TaskTable.UpdateTask | app/src/main/java/vn/com/detai/todolist/database/DBHelper.kt:49-56 | only the title and date of the row with the task's id change; an absent id changes nothing |
| Database.TaskTable.GetTask | app/src/main/java/vn/com/detai/todolist/database/DBHelper.kt:61-81 | a task is returned exactly when the id is in the table, and it is that row with that id |
| Database.TaskTable.DeleteTask | app/src/main/java/vn/com/detai/todolist/database/DBHelper.kt:86-92 | the table afterwards is the old table without that id |
| Database.TaskTable.DeleteAllTasks | app/src/main/java/vn/com/detai/todolist/database/DBHelper.kt:131-135 | no row is left and the id counter is not reset |
| Database.TaskTable.UpdateTaskPosition | app/src/main/java/vn/com/detai/todolist/database/DBHelper.kt:140-146 | only the position of the row with the task's id changes |
| Database.TaskTable.ReadAllRows | app/src/main/java/vn/com/detai/todolist/database/DBHelper.kt:97-117 | the result holds every row exactly once, each as the task built from it, with distinct ids |
| Database.TaskTable.GetAllTasks | app/src/main/java/vn/com/detai/todolist/database/DBHelper.kt:97-126 | the result holds every row exactly once and is sorted by position |
| Adapter.PendingRemoval.constructor | app/src/main/java/vn/com/detai/todolist/adapter/RecyclerViewAdapter.kt:85-87 | the snackbar state keeps the removed task's id and time stamp and starts out removed |
| Adapter.TaskListAdapter.constructor | app/src/main/java/vn/com/detai/todolist/adapter/RecyclerViewAdapter.kt:27-34 | a new adapter has an empty list and the undo guard disarmed |
| Adapter.TaskListAdapter.AddTask | app/src/main/java/vn/com/detai/todolist/adapter/RecyclerViewAdapter.kt:54-59 | the item is appended and the earlier tasks stay |
| Adapter.TaskListAdapter.AddTaskAt | app/src/main/java/vn/com/detai/todolist/adapter/RecyclerViewAdapter.kt:64-69 | succeeds exactly when the index is within 0..N; then the list is the insertion, otherwise unchanged |
| Adapter.TaskListAdapter.UpdateTask | app/src/main/java/vn/com/detai/todolist/adapter/RecyclerViewAdapter.kt:74-79 | only the task at the index is replaced |
| Adapter.TaskListAdapter.RemoveTask | app/src/main/java/vn/com/detai/todolist/adapter/RecyclerViewAdapter.kt:132-146 | the task leaves the list, its row leaves the table, and the remaining rows are renumbered 0..N-1 in their old position order |
| Adapter.TaskListAdapter.RemoveTaskWithUndo | app/src/main/java/vn/com/detai/todolist/adapter/RecyclerViewAdapter.kt:84-95 | the task leaves the list at once, the undo guard is armed, and the fresh snackbar state remembers the task's id and time stamp |
| Adapter.TaskListAdapter.Undo | app/src/main/java/vn/com/detai/todolist/adapter/RecyclerViewAdapter.kt:97-105 | the guard ends disarmed; a task is re-inserted exactly when the guard was armed and its row exists with a position inside the list, and then at that stored position with the snackbar state marked not removed; otherwise nothing changes |
| Adapter.TaskListAdapter.Dismiss | app/src/main/java/vn/com/detai/todolist/adapter/RecyclerViewAdapter.kt:114-124 | a removal not undone deletes the row and renumbers the rest 0..N-1 in their old order; an undone one leaves the table alone |
| Adapter.TaskListAdapter.RemoveAllTasks | app/src/main/java/vn/com/detai/todolist/adapter/RecyclerViewAdapter.kt:151-156 | the list is empty afterwards |
| Adapter.TaskListAdapter.ReloadTasks | app/src/main/java/vn/com/detai/todolist/adapter/RecyclerViewAdapter.kt:215-223 | the list comes back with the same contents in the same order |
| Adapter.TaskListAdapter.MoveTask | app/src/main/java/vn/com/detai/todolist/adapter/RecyclerViewAdapter.kt:161-187 | for two different in-range indices the list is the save-order pass of the moved list; for equal indices, in range or not, both loops are empty and the list is the save-order pass of the old list; the table holds the position written for each task |
| Adapter.TaskListAdapter.MoveDown | app/src/main/java/vn/com/detai/todolist/adapter/RecyclerViewAdapter.kt:164-173 | the downward swap loop leaves exactly the moved list |
| Adapter.TaskListAdapter.MoveUp | app/src/main/java/vn/com/detai/todolist/adapter/RecyclerViewAdapter.kt:174-184 | the upward swap loop leaves exactly the moved list, and nothing changes when the two indices are equal |
| Adapter.TaskListAdapter.SaveTasksOrderFromRV | app/src/main/java/vn/com/detai/todolist/adapter/RecyclerViewAdapter.kt:192-199 | the list becomes its save-order pass and the table holds the position written for each task |
| Adapter.TaskListAdapter.SaveTasksOrderFromDB | app/src/main/java/vn/com/detai/todolist/adapter/RecyclerViewAdapter.kt:204-213 | the table keeps its rows and other columns and is renumbered 0..N-1 in its old position order |
| Adapter.MoveDownStep | app/src/main/java/vn/com/detai/todolist/adapter/RecyclerViewAdapter.kt:166-169 | one turn of the downward loop carries the task one index further |
| Adapter.MoveUpStep | app/src/main/java/vn/com/detai/todolist/adapter/RecyclerViewAdapter.kt:176-179 | one turn of the upward loop carries the task one index further |
| Adapter.CarriedDownIsMoved | app/src/main/java/vn/com/detai/todolist/adapter/RecyclerViewAdapter.kt:166-173 | the state the downward loop leaves at its end is the moved list |
| Adapter.CarriedUpIsMoved | app/src/main/java/vn/com/detai/todolist/adapter/RecyclerViewAdapter.kt:176-184 | the state the upward loop leaves at its end is the moved list |

## Left out

- Views, view holders, item notifications, logging and the adapter callbacks (`updateData`, `showFAB`) are presentation and are not modelled.
- Alarm and notification removal on deletion (AlarmHelper) is a call into the operating system and is left out; the time stamp it uses is kept in `PendingRemoval`.
- The snackbar itself and its timing are not modelled: its undo action is `Undo`, its disappearing from the screen is `Dismiss`, and the caller decides the order of the two.
- TasksOrderUpdate runs each position write on a background thread; the model performs the write synchronously, in list order, inside the save-order loops.
- SQL text, cursors, string parsing of columns, the database singleton, `onUpgrade` and the title search (`getTasksForSearch`) are not modelled; the table is a map from id to row.
- Kotlin's Int and Long widths are not modelled; ids, dates, positions and time stamps are unbounded integers.
- Tasks are values: the source's list holds task objects that the save-order pass and the move loops update in place, and aliasing between the adapter's list and other holders of the same objects is not captured.
- ModelTask.kt is not part of this model, so its equality is unknown; the model compares tasks by all five fields. With distinct ids (the table's case) any id-based equality gives the same lookups.
- The order in which the table returns rows is unspecified (no ORDER BY); `ReadAllRows` picks rows in an arbitrary order.
- Database.TaskTable.GetAllTasks: states sorted and complete, not stability; stability with respect to the read order is stated on `SortByPosition`, since the read order itself is unspecified.
- Database.TaskTable.GetTask: the source throws on an absent id (an uninitialised result); the model returns `None`.
- Adapter.TaskListAdapter.AddTaskAt: an index outside 0..N makes the source throw; the model reports failure and leaves the list unchanged.
- Adapter.TaskListAdapter.Undo: where the row is gone or its stored position is outside the list the source throws after disarming the guard; the model disarms the guard and re-inserts nothing.
- Adapter.TaskListAdapter.UpdateTask, RemoveTask, RemoveTaskWithUndo: an index outside the list makes the source throw; the model requires valid indices.
- Adapter.TaskListAdapter.MoveTask: with different indices, one of them outside the list, the source throws, possibly after swapping and renumbering part of the list; the model requires both indices in range in that case (equal indices are modelled whatever their value).
- Database.TaskTable.SaveTask: the insert's failure return (-1) is not modelled; saving always adds a row.
- Adapter.TaskListAdapter.MoveTask: the positions are 0..N-1 only when task ids are distinct (`MovedThenSaved`); with duplicate tasks the save-order pass can give two tasks the same position, as the source's lookup by equality does.
- Undo re-inserts the task at the position stored in its row, which is its original index only when the list and the table agree; `RemoveThenInsert` states the restore for the original index.
