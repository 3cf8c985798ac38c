/**
  The tasks table (DBHelper): one row per task, keyed by an id the table
  assigns. The SQL layer is abstracted to a map from id to row; the
  operations are the helper's CRUD methods and the listing that reads every
  row and bubble-sorts the rows by position.
 */
module Database {
  import opened Tasks

  /** The table after updating the title and date of the row with t's id. */
  function TitleAndDateWritten(rows: map<int, Row>, t: Task): (r: map<int, Row>)
    ensures r.Keys == rows.Keys
    ensures forall id :: id in rows && id != t.id ==> r[id] == rows[id]
    ensures t.id in rows ==>
      && r[t.id].title == t.title && r[t.id].date == t.date
      && r[t.id].position == rows[t.id].position && r[t.id].timeStamp == rows[t.id].timeStamp
  {
    if t.id in rows then rows[t.id := rows[t.id].(title := t.title, date := t.date)] else rows
  }

  /** The table after updating the position of the row with t's id. */
  function PositionWritten(rows: map<int, Row>, t: Task): (r: map<int, Row>)
    ensures r.Keys == rows.Keys
    ensures forall id :: id in rows && id != t.id ==> r[id] == rows[id]
    ensures t.id in rows ==> r[t.id] == rows[t.id].(position := t.position)
  {
    if t.id in rows then rows[t.id := rows[t.id].(position := t.position)] else rows
  }

  /** The table after one position update per task of `list`, in list order:
      the sequential effect of running TasksOrderUpdate on each task. Only
      positions change, and no row is added or removed. */
  function WritePositions(rows: map<int, Row>, list: seq<Task>): (r: map<int, Row>)
    ensures r.Keys == rows.Keys
    ensures forall id :: id in rows ==> r[id] == rows[id].(position := r[id].position)
    decreases |list|
  {
    if list == [] then rows
    else PositionWritten(WritePositions(rows, list[..|list| - 1]), list[|list| - 1])
  }

  /** Writing one more task's position extends the writes of a prefix. */
  lemma WriteStep(rows: map<int, Row>, cur: seq<Task>, k: int, t: Task)
    requires 0 <= k < |cur|
    ensures WritePositions(rows, cur[k := t][..k + 1]) == PositionWritten(WritePositions(rows, cur[..k]), t)
  {
    var next := cur[k := t][..k + 1];
    assert next[..k] == cur[..k];
    assert next[k] == t;
  }

  /** When the ids of `list` are distinct, every row named in `list` ends up
      with that task's position, and every other row is untouched. */
  lemma {:induction false} WritePositionsDistinct(rows: map<int, Row>, list: seq<Task>)
    requires DistinctIds(list)
    ensures forall k :: 0 <= k < |list| && list[k].id in rows ==>
      WritePositions(rows, list)[list[k].id].position == list[k].position
    ensures forall id :: id in rows && (forall k :: 0 <= k < |list| ==> list[k].id != id) ==>
      WritePositions(rows, list)[id] == rows[id]
    decreases |list|
  {
    if list != [] {
      var n := |list|;
      var front := list[..n - 1];
      assert DistinctIds(front);
      WritePositionsDistinct(rows, front);
      forall id | id in rows && (forall k :: 0 <= k < |list| ==> list[k].id != id)
        ensures WritePositions(rows, list)[id] == rows[id]
      {
        assert forall k :: 0 <= k < |front| ==> front[k].id != id by {
          forall k | 0 <= k < |front| ensures front[k].id != id { assert front[k] == list[k]; }
        }
        assert list[n - 1].id != id;
      }
      forall k | 0 <= k < n && list[k].id in rows
        ensures WritePositions(rows, list)[list[k].id].position == list[k].position
      {
        if k < n - 1 {
          assert front[k] == list[k];
        }
      }
    }
  }

  /** Non-decreasing by position. */
  predicate SortedByPosition(s: seq<Task>)
  {
    forall a, b :: 0 <= a < b < |s| ==> s[a].position <= s[b].position
  }

  /** The tasks of `s` whose position is `p`, in their order in `s`. A
      reordering that leaves every AtPosition(_, p) alone is a stable one. */
  function AtPosition(s: seq<Task>, p: int): (r: seq<Task>)
    ensures |r| <= |s|
    ensures forall k :: 0 <= k < |r| ==> r[k].position == p && r[k] in s
    decreases |s|
  {
    if s == [] then []
    else (if s[0].position == p then [s[0]] else []) + AtPosition(s[1..], p)
  }

  lemma {:induction false} AtPositionConcat(a: seq<Task>, b: seq<Task>, p: int)
    ensures AtPosition(a + b, p) == AtPosition(a, p) + AtPosition(b, p)
    decreases |a|
  {
    if a != [] {
      var head := if a[0].position == p then [a[0]] else [];
      assert (a + b)[0] == a[0];
      assert (a + b)[1..] == a[1..] + b;
      assert AtPosition(a + b, p) == head + AtPosition(a[1..] + b, p);
      AtPositionConcat(a[1..], b, p);
      assert AtPosition(a, p) == head + AtPosition(a[1..], p);
    } else {
      assert a + b == b;
    }
  }

  /** Swapping two neighbours whose positions differ keeps every
      same-position subsequence as it was. */
  lemma SwapKeepsAtPosition(s: seq<Task>, j: int)
    requires 0 <= j < |s| - 1 && s[j].position != s[j + 1].position
    ensures forall p :: AtPosition(s[j := s[j + 1]][j + 1 := s[j]], p) == AtPosition(s, p)
  {
    forall p ensures AtPosition(s[j := s[j + 1]][j + 1 := s[j]], p) == AtPosition(s, p) {
      SwapKeepsAtPositionOf(s, j, p);
    }
  }

  lemma SwapKeepsAtPositionOf(s: seq<Task>, j: int, p: int)
    requires 0 <= j < |s| - 1 && s[j].position != s[j + 1].position
    ensures AtPosition(s[j := s[j + 1]][j + 1 := s[j]], p) == AtPosition(s, p)
  {
    var x, y := s[j], s[j + 1];
    var pre, post := s[..j], s[j + 2..];
    assert s == (pre + [x, y]) + post;
    assert s[j := y][j + 1 := x] == (pre + [y, x]) + post;
    AtPositionConcat(pre + [x, y], post, p);
    AtPositionConcat(pre, [x, y], p);
    AtPositionConcat(pre + [y, x], post, p);
    AtPositionConcat(pre, [y, x], p);
    assert [x, y][1..] == [y] && [y][1..] == [];
    assert [y, x][1..] == [x] && [x][1..] == [];
    assert AtPosition([x, y], p) == AtPosition([y, x], p);
  }

  /** The last |s| - m places hold the largest positions, in order. */
  ghost predicate SettledFrom(s: seq<Task>, m: int)
  {
    && (forall a, b :: 0 <= m <= a < b < |s| ==> s[a].position <= s[b].position)
    && (forall a, b :: 0 <= a < m <= b < |s| ==> s[a].position <= s[b].position)
  }

  /** `s` is a stable reordering of `list` (and so a permutation of it). */
  ghost predicate StablyReordered(s: seq<Task>, list: seq<Task>)
  {
    && multiset(s) == multiset(list)
    && (forall p :: AtPosition(s, p) == AtPosition(list, p))
    && (DistinctIds(list) ==> DistinctIds(s))
  }

  /** One swap of the inner loop keeps the settled suffix and the stable
      reordering. */
  lemma SwapStep(s: seq<Task>, list: seq<Task>, m: int, j: int)
    requires SettledFrom(s, m) && StablyReordered(s, list)
    requires 0 <= j < m - 1 && m <= |s| && s[j].position > s[j + 1].position
    ensures SettledFrom(s[j := s[j + 1]][j + 1 := s[j]], m)
    ensures StablyReordered(s[j := s[j + 1]][j + 1 := s[j]], list)
  {
    SwapKeepsAtPosition(s, j);
    var t := s[j := s[j + 1]][j + 1 := s[j]];
    assert multiset(t) == multiset(s);
    if DistinctIds(list) {
      SwapKeepsDistinct(s, j);
    }
    SwapKeepsSettled(s, m, j);
  }

  lemma SwapKeepsDistinct(s: seq<Task>, j: int)
    requires DistinctIds(s) && 0 <= j < |s| - 1
    ensures DistinctIds(s[j := s[j + 1]][j + 1 := s[j]])
  {
    var t := s[j := s[j + 1]][j + 1 := s[j]];
    forall a, b | 0 <= a < b < |t| ensures t[a].id != t[b].id {
      var a' := if a == j then j + 1 else if a == j + 1 then j else a;
      var b' := if b == j then j + 1 else if b == j + 1 then j else b;
      assert t[a] == s[a'] && t[b] == s[b'] && a' != b';
    }
  }

  lemma SwapKeepsSettled(s: seq<Task>, m: int, j: int)
    requires SettledFrom(s, m) && 0 <= j < m - 1 && m <= |s|
    ensures SettledFrom(s[j := s[j + 1]][j + 1 := s[j]], m)
  {
    var t := s[j := s[j + 1]][j + 1 := s[j]];
    forall a, b | 0 <= a < m <= b < |t| ensures t[a].position <= t[b].position {
      var a' := if a == j then j + 1 else if a == j + 1 then j else a;
      assert t[a] == s[a'] && t[b] == s[b];
    }
  }

  /** The inner loop of the bubble sort stands at j in a pass over the first
      m places: s[j] is the largest position among s[0..j], the last |s| - m
      places are settled, and `s` is a stable reordering of `list`. */
  ghost predicate PassAt(s: seq<Task>, list: seq<Task>, m: int, j: int)
  {
    && 0 <= j < m <= |s|
    && (forall a :: 0 <= a <= j ==> s[a].position <= s[j].position)
    && SettledFrom(s, m)
    && StablyReordered(s, list)
  }

  /** One turn of the inner loop: compare s[j] and s[j + 1] and swap them
      when the first has the strictly greater position. */
  lemma PassStep(s: seq<Task>, list: seq<Task>, m: int, j: int)
    requires PassAt(s, list, m, j) && j + 1 < m
    ensures s[j].position > s[j + 1].position ==> PassAt(s[j := s[j + 1]][j + 1 := s[j]], list, m, j + 1)
    ensures s[j].position <= s[j + 1].position ==> PassAt(s, list, m, j + 1)
  {
    if s[j].position > s[j + 1].position {
      SwapStep(s, list, m, j);
    }
  }

  /** At the end of a pass the largest position of the first m places
      stands last among them, so one more place is settled. */
  lemma PassDone(s: seq<Task>, list: seq<Task>, m: int)
    requires PassAt(s, list, m, m - 1)
    ensures SettledFrom(s, m - 1) && StablyReordered(s, list)
  {
  }

  /** With at most one unsettled place the list is sorted. */
  lemma SettledIsSorted(s: seq<Task>, m: int)
    requires SettledFrom(s, m) && 0 <= m <= 1
    ensures SortedByPosition(s)
  {
    forall a, b | 0 <= a < b < |s| ensures s[a].position <= s[b].position {
      if a < m {
        assert 0 <= a < m <= b < |s|;
      }
    }
  }

  /** getAllTasks' nested loops: a bubble sort by position that swaps two
      neighbours only when the first has the strictly greater position. The
      result is sorted, is a permutation of the input, keeps the input's
      order among tasks of equal position, and keeps ids distinct. */
  method SortByPosition(list: seq<Task>) returns (sorted: seq<Task>)
    ensures SortedByPosition(sorted)
    ensures multiset(sorted) == multiset(list)
    ensures forall p :: AtPosition(sorted, p) == AtPosition(list, p)
    ensures DistinctIds(list) ==> DistinctIds(sorted)
  {
    sorted := list;
    var n := |sorted|;
    var i := 0;
    while i < n - 1
      invariant |sorted| == n && 0 <= i <= n && (n > 0 ==> i <= n - 1)
      invariant SettledFrom(sorted, n - i) && StablyReordered(sorted, list)
    {
      var j := 0;
      while j < n - i - 1
        invariant |sorted| == n && j <= n - i - 1 && PassAt(sorted, list, n - i, j)
      {
        PassStep(sorted, list, n - i, j);
        if sorted[j].position > sorted[j + 1].position {
          sorted := sorted[j := sorted[j + 1]][j + 1 := sorted[j]];
        }
        j := j + 1;
      }
      PassDone(sorted, list, n - i);
      i := i + 1;
    }
    SettledIsSorted(sorted, n - i);
  }

  /** `list` holds every row of the table exactly once, each as the task
      getAllTasks builds from it. */
  predicate IsListing(rows: map<int, Row>, list: seq<Task>)
  {
    && |list| == |rows|
    && DistinctIds(list)
    && (forall k :: 0 <= k < |list| ==> list[k].id in rows && list[k] == TaskOf(list[k].id, rows[list[k].id]))
    && (forall id :: id in rows ==> exists k :: 0 <= k < |list| && list[k].id == id)
  }

  /** A permutation of a listing with distinct ids is a listing. */
  lemma ListingPermutation(rows: map<int, Row>, a: seq<Task>, b: seq<Task>)
    requires IsListing(rows, a) && multiset(a) == multiset(b) && DistinctIds(b)
    ensures IsListing(rows, b)
  {
    assert |a| == |multiset(a)| == |multiset(b)| == |b|;
    forall k | 0 <= k < |b| ensures b[k].id in rows && b[k] == TaskOf(b[k].id, rows[b[k].id]) {
      assert b[k] in multiset(b);
      assert b[k] in a;
    }
    forall id | id in rows ensures exists k :: 0 <= k < |b| && b[k].id == id {
      var m :| 0 <= m < |a| && a[m].id == id;
      assert a[m] in multiset(a);
      assert a[m] in b;
    }
  }

  /** The cursor has read, once each, exactly the rows not in `remaining`. */
  ghost predicate ScannedExcept(rows: map<int, Row>, remaining: set<int>, scan: seq<Task>)
  {
    && remaining <= rows.Keys
    && |scan| == |rows.Keys - remaining|
    && DistinctIds(scan)
    && (forall k :: 0 <= k < |scan| ==>
          scan[k].id in rows && scan[k].id !in remaining && scan[k] == TaskOf(scan[k].id, rows[scan[k].id]))
    && (forall id :: id in rows && id !in remaining ==> exists k :: 0 <= k < |scan| && scan[k].id == id)
  }

  lemma ScanStep(rows: map<int, Row>, remaining: set<int>, scan: seq<Task>, id: int)
    requires ScannedExcept(rows, remaining, scan) && id in remaining
    ensures ScannedExcept(rows, remaining - {id}, scan + [TaskOf(id, rows[id])])
  {
    var scan' := scan + [TaskOf(id, rows[id])];
    ScanCount(rows.Keys, remaining, id);
    assert DistinctIds(scan') by {
      forall a, b | 0 <= a < b < |scan'| ensures scan'[a].id != scan'[b].id {
        if b == |scan| {
          assert scan'[a] == scan[a];
        } else {
          assert scan'[a] == scan[a] && scan'[b] == scan[b];
        }
      }
    }
    ScanCovers(rows, remaining, scan, id);
  }

  /** Reading one more row grows the read part of the key set by one. */
  lemma ScanCount(keys: set<int>, remaining: set<int>, id: int)
    requires remaining <= keys && id in remaining
    ensures |keys - (remaining - {id})| == |keys - remaining| + 1
  {
    assert keys - (remaining - {id}) == (keys - remaining) + {id};
  }

  lemma ScanCovers(rows: map<int, Row>, remaining: set<int>, scan: seq<Task>, id: int)
    requires id in rows
    requires forall id' :: id' in rows && id' !in remaining ==> exists k :: 0 <= k < |scan| && scan[k].id == id'
    ensures var scan' := scan + [TaskOf(id, rows[id])];
      forall id' :: id' in rows && id' !in remaining - {id} ==> exists k :: 0 <= k < |scan'| && scan'[k].id == id'
  {
    var scan' := scan + [TaskOf(id, rows[id])];
    forall id' | id' in rows && id' !in remaining - {id} ensures exists k :: 0 <= k < |scan'| && scan'[k].id == id' {
      if id' == id {
        assert scan'[|scan|].id == id';
      } else {
        var k :| 0 <= k < |scan| && scan[k].id == id';
        assert scan'[k].id == id';
      }
    }
  }

  /** The table of tasks, keyed by the AUTOINCREMENT id. */
  class TaskTable {
    var rows: map<int, Row>
    /** The id the next insert gets; AUTOINCREMENT never reuses an id. */
    var nextId: int

    ghost predicate Valid()
      reads this
    {
      1 <= nextId && forall id :: id in rows ==> 1 <= id < nextId
    }

    /** An empty table (onCreate). */
    constructor ()
      ensures Valid() && rows == map[]
    {
      rows := map[];
      nextId := 1;
    }

    /** saveTask: inserts a new row under a fresh id and returns that id;
        the task's own id is ignored and no existing row changes. */
    method SaveTask(task: Task) returns (id: int)
      requires Valid()
      modifies this
      ensures Valid()
      ensures id >= 1 && id !in old(rows)
      ensures rows == old(rows)[id := RowOf(task)]
    {
      id := nextId;
      rows := rows[id := RowOf(task)];
      nextId := nextId + 1;
    }

    /** updateTask: only the title and date of the row with the task's id
        change; an absent id matches no row. */
    method UpdateTask(task: Task)
      requires Valid()
      modifies this
      ensures Valid() && nextId == old(nextId)
      ensures rows == TitleAndDateWritten(old(rows), task)
    {
      rows := TitleAndDateWritten(rows, task);
    }

    /** getTask: the row with that id, as a task; None where the source's
        uninitialised result would throw on use. */
    method GetTask(id: int) returns (r: Option<Task>)
      ensures r.Some? <==> id in rows
      ensures r.Some? ==> r.value.id == id && RowOf(r.value) == rows[id]
    {
      if id in rows {
        r := Some(TaskOf(id, rows[id]));
      } else {
        r := None;
      }
    }

    /** deleteTask: removes the row with that id, if any. */
    method DeleteTask(id: int)
      requires Valid()
      modifies this
      ensures Valid() && nextId == old(nextId)
      ensures rows == old(rows) - {id}
    {
      rows := rows - {id};
    }

    /** deleteAllTasks: no row is left; the id sequence is not reset. */
    method DeleteAllTasks()
      requires Valid()
      modifies this
      ensures Valid() && nextId == old(nextId)
      ensures rows == map[]
    {
      rows := map[];
    }

    /** updateTaskPosition: only the position of the row with the task's id
        changes. */
    method UpdateTaskPosition(task: Task)
      requires Valid()
      modifies this
      ensures Valid() && nextId == old(nextId)
      ensures rows == PositionWritten(old(rows), task)
    {
      rows := PositionWritten(rows, task);
    }

    /** The cursor loop of getAllTasks: every row once, as a task, in an
        order the table does not specify. */
    method ReadAllRows() returns (scan: seq<Task>)
      ensures IsListing(rows, scan)
    {
      scan := [];
      var remaining := rows.Keys;
      while remaining != {}
        invariant ScannedExcept(rows, remaining, scan)
        decreases remaining
      {
        assert exists id :: id in remaining by {
          if forall id :: id !in remaining { assert false; }
        }
        var id :| id in remaining;
        ScanStep(rows, remaining, scan, id);
        scan := scan + [TaskOf(id, rows[id])];
        remaining := remaining - {id};
      }
      assert rows.Keys - remaining == rows.Keys;
    }

    /** getAllTasks: every row once, sorted by position; rows of equal
        position keep the order in which they were read (see SortByPosition). */
    method GetAllTasks() returns (list: seq<Task>)
      ensures IsListing(rows, list)
      ensures SortedByPosition(list)
    {
      var scan := ReadAllRows();
      list := SortByPosition(scan);
      ListingPermutation(rows, scan, list);
    }
  }
}
