/**
  What the adapter does to its ordered list of tasks, as functions on
  sequences: insertion, removal, the drag-and-drop move with its position
  rewrites, and the save-order pass that numbers every task by its index.
  The adapter class states its methods against these, and the lemmas here
  say what they mean.
 */
module TaskList {
  import opened Tasks
  import opened Database

  /** `MutableList.add(p, x)`: x lands at index p, the tasks before p stay,
      the tasks from p on move one place right in the same order. */
  function InsertAt(s: seq<Task>, p: int, x: Task): (r: seq<Task>)
    requires 0 <= p <= |s|
    ensures |r| == |s| + 1 && r[p] == x
    ensures forall k :: 0 <= k < p ==> r[k] == s[k]
    ensures forall k :: p <= k < |s| ==> r[k + 1] == s[k]
  {
    s[..p] + [x] + s[p..]
  }

  /** Inserting adds exactly x to the multiset of tasks. */
  lemma InsertAtMultiset(s: seq<Task>, p: int, x: Task)
    requires 0 <= p <= |s|
    ensures multiset(InsertAt(s, p, x)) == multiset(s) + multiset{x}
  {
    assert s == s[..p] + s[p..];
  }

  /** `MutableList.removeAt(p)`: exactly the task at p goes, the others keep
      their relative order. */
  function RemoveAt(s: seq<Task>, p: int): (r: seq<Task>)
    requires 0 <= p < |s|
    ensures |r| == |s| - 1
    ensures forall k :: 0 <= k < p ==> r[k] == s[k]
    ensures forall k :: p <= k < |r| ==> r[k] == s[k + 1]
  {
    s[..p] + s[p + 1..]
  }

  /** Removing takes exactly the task at p out of the multiset of tasks. */
  lemma RemoveAtMultiset(s: seq<Task>, p: int)
    requires 0 <= p < |s|
    ensures multiset(RemoveAt(s, p)) == multiset(s) - multiset{s[p]}
  {
    assert s == s[..p] + [s[p]] + s[p + 1..];
  }

  /** Removing the task at p and inserting it back at p gives the list back:
      an undo that re-inserts the removed task at its old index restores it. */
  lemma RemoveThenInsert(s: seq<Task>, p: int)
    requires 0 <= p < |s|
    ensures InsertAt(RemoveAt(s, p), p, s[p]) == s
  {
    var r := InsertAt(RemoveAt(s, p), p, s[p]);
    forall k | 0 <= k < |s| ensures r[k] == s[k] {
      if k > p {
        assert r[k] == RemoveAt(s, p)[k - 1];
      }
    }
  }

  /** Where the task at index k after a move from `from` to `to` came from. */
  function ReorderSource(from: int, to: int, k: int): int
  {
    if k == to then from
    else if from < to && from <= k < to then k + 1
    else if to < from && to < k <= from then k - 1
    else k
  }

  lemma ReorderSourceInverse(from: int, to: int, k: int)
    ensures ReorderSource(from, to, ReorderSource(to, from, k)) == k
  {
  }

  /** The order moveTask produces: the task at `from` taken out and put back
      at `to`. The tasks between shift by one towards `from`, the tasks
      outside [min(from, to), max(from, to)] stay, and nothing is lost or
      duplicated. */
  function Reorder(s: seq<Task>, from: int, to: int): (r: seq<Task>)
    requires 0 <= from < |s| && 0 <= to < |s|
    ensures |r| == |s| && r[to] == s[from]
    ensures forall k :: 0 <= k < |s| ==>
      0 <= ReorderSource(from, to, k) < |s| && r[k] == s[ReorderSource(from, to, k)]
  {
    ReorderIndices(s, from, to);
    InsertAt(RemoveAt(s, from), to, s[from])
  }

  /** Index by index, where the tasks of the remove-and-insert come from. */
  lemma ReorderIndices(s: seq<Task>, from: int, to: int)
    requires 0 <= from < |s| && 0 <= to < |s|
    ensures var r := InsertAt(RemoveAt(s, from), to, s[from]);
      forall k :: 0 <= k < |s| ==>
        0 <= ReorderSource(from, to, k) < |s| && r[k] == s[ReorderSource(from, to, k)]
  {
    var rm := RemoveAt(s, from);
    var r := InsertAt(rm, to, s[from]);
    forall k | 0 <= k < |s|
      ensures 0 <= ReorderSource(from, to, k) < |s| && r[k] == s[ReorderSource(from, to, k)]
    {
      if k < to {
        assert r[k] == rm[k];
      } else if k > to {
        assert r[k] == rm[k - 1];
      }
    }
  }

  /** A move is a permutation: no task is lost or duplicated. */
  lemma ReorderPermutes(s: seq<Task>, from: int, to: int)
    requires 0 <= from < |s| && 0 <= to < |s|
    ensures multiset(Reorder(s, from, to)) == multiset(s)
  {
    RemoveAtMultiset(s, from);
    InsertAtMultiset(RemoveAt(s, from), to, s[from]);
    assert s[from] in multiset(s);
  }

  lemma {:induction false} ReorderRoundTrip(s: seq<Task>, i: int, j: int)
    requires 0 <= i < |s| && 0 <= j < |s|
    ensures Reorder(Reorder(s, i, j), j, i) == s
  {
    var r1 := Reorder(s, i, j);
    var r := Reorder(r1, j, i);
    forall k | 0 <= k < |s| ensures r[k] == s[k] {
      var m := ReorderSource(j, i, k);
      ReorderSourceInverse(i, j, k);
      assert r[k] == r1[m];
    }
  }

  lemma ReorderKeepsDistinct(s: seq<Task>, from: int, to: int)
    requires 0 <= from < |s| && 0 <= to < |s| && DistinctIds(s)
    ensures DistinctIds(Reorder(s, from, to))
  {
    var r := Reorder(s, from, to);
    forall a, b | 0 <= a < b < |r| ensures r[a].id != r[b].id {
      var sa, sb := ReorderSource(from, to, a), ReorderSource(from, to, b);
      ReorderSourceInverse(to, from, a);
      ReorderSourceInverse(to, from, b);
      assert sa != sb;
      assert r[a] == s[sa] && r[b] == s[sb];
      if sa < sb {
        assert s[sa].id != s[sb].id;
      } else {
        assert s[sb].id != s[sa].id;
      }
    }
  }

  /** The tasks at indices lo..hi get their index as position. */
  function NumberRange(s: seq<Task>, lo: int, hi: int): (r: seq<Task>)
    requires 0 <= lo <= hi < |s|
    ensures |r| == |s|
    ensures forall k :: lo <= k <= hi ==> r[k] == s[k].(position := k)
    ensures forall k :: 0 <= k < |s| && !(lo <= k <= hi) ==> r[k] == s[k]
  {
    seq(|s|, k requires 0 <= k < |s| => if lo <= k <= hi then s[k].(position := k) else s[k])
  }

  function Min(a: int, b: int): int { if a < b then a else b }
  function Max(a: int, b: int): int { if a < b then b else a }

  /** The list after moveTask's swap loop: reordered, and every task in
      [min(from, to), max(from, to)] has its index as position; an empty
      loop (from == to) changes nothing. */
  function Moved(s: seq<Task>, from: int, to: int): (r: seq<Task>)
    requires 0 <= from < |s| && 0 <= to < |s|
    ensures |r| == |s|
    ensures forall k :: 0 <= k < |s| ==> r[k] == Reorder(s, from, to)[k].(position := r[k].position)
    ensures from != to ==> forall k :: Min(from, to) <= k <= Max(from, to) ==> r[k].position == k
    ensures forall k :: 0 <= k < Min(from, to) || Max(from, to) < k < |s| ==> r[k] == s[k]
    ensures from == to ==> r == s
  {
    if from == to then s else NumberRange(Reorder(s, from, to), Min(from, to), Max(from, to))
  }

  /** Moving i to j and then j back to i restores the original order; only
      the positions of the tasks in between are renumbered to their index. */
  lemma {:induction false} MoveRoundTrip(s: seq<Task>, i: int, j: int)
    requires 0 <= i < |s| && 0 <= j < |s| && i != j
    ensures Moved(Moved(s, i, j), j, i) == NumberRange(s, Min(i, j), Max(i, j))
  {
    var r := Moved(Moved(s, i, j), j, i);
    var n := NumberRange(s, Min(i, j), Max(i, j));
    forall k | 0 <= k < |s| ensures r[k] == n[k] {
      MoveRoundTripAt(s, i, j, k);
    }
  }

  lemma MoveRoundTripAt(s: seq<Task>, i: int, j: int, k: int)
    requires 0 <= i < |s| && 0 <= j < |s| && i != j && 0 <= k < |s|
    ensures Moved(Moved(s, i, j), j, i)[k] == NumberRange(s, Min(i, j), Max(i, j))[k]
  {
    if Min(i, j) <= k <= Max(i, j) {
      var m := Moved(s, i, j);
      ReorderSourceInverse(i, j, k);
      var src := ReorderSource(j, i, k);
      assert Reorder(m, j, i)[k] == m[src];
      assert m[src] == Reorder(s, i, j)[src].(position := m[src].position);
      assert Reorder(s, i, j)[src] == s[k];
    }
  }

  /** Kotlin's `indexOf`: the first index holding x, or -1. */
  function IndexOf(s: seq<Task>, x: Task): (r: int)
    ensures -1 <= r < |s|
    ensures r == -1 <==> x !in s
    ensures r >= 0 ==> s[r] == x && forall k :: 0 <= k < r ==> s[k] != x
    decreases |s|
  {
    if s == [] then -1
    else if s[0] == x then 0
    else
      var i := IndexOf(s[1..], x);
      if i < 0 then -1 else i + 1
  }

  /** Every task numbered by its index. */
  function Renumber(s: seq<Task>): (r: seq<Task>)
    ensures |r| == |s|
    ensures forall k :: 0 <= k < |s| ==> r[k] == s[k].(position := k)
  {
    seq(|s|, k requires 0 <= k < |s| => s[k].(position := k))
  }

  /** The list after the save-order pass, which visits the tasks in order and
      sets each one's position to the index at which looking it up in the
      partly renumbered list finds it. Each task keeps everything
      but its position, which is the first index where an equal task then
      stood: never beyond its own index. */
  function OrderSaved(s: seq<Task>): (r: seq<Task>)
    ensures |r| == |s|
    ensures forall k :: 0 <= k < |s| ==> r[k] == s[k].(position := r[k].position) && 0 <= r[k].position <= k
    decreases |s|
  {
    if s == [] then []
    else
      var front := OrderSaved(s[..|s| - 1]);
      var last := s[|s| - 1];
      front + [last.(position := IndexOf(front + [last], last))]
  }

  /** Looking x up in a list finds what looking it up in a prefix holding
      x finds. */
  lemma IndexOfPrefix(s: seq<Task>, x: Task, n: int)
    requires 0 <= n <= |s| && x in s[..n]
    ensures IndexOf(s, x) == IndexOf(s[..n], x)
  {
    var i, i' := IndexOf(s, x), IndexOf(s[..n], x);
    assert s[..n][i'] == x;
  }

  /** One turn of the save-order loop, as the adapter runs it on the whole
      list, advances OrderSaved by one task. */
  lemma SaveStep(before: seq<Task>, cur: seq<Task>, k: int)
    requires 0 <= k < |before| == |cur|
    requires cur[..k] == OrderSaved(before[..k]) && cur[k] == before[k]
    ensures cur[..k] + [SavedTask(cur, k)] == OrderSaved(before[..k + 1])
  {
    var x := cur[k];
    OrderSavedSnoc(before, k);
    PrefixSnoc(cur, k);
    IndexOfPrefix(cur, x, k + 1);
  }

  lemma PrefixSnoc(s: seq<Task>, k: int)
    requires 0 <= k < |s|
    ensures s[..k] + [s[k]] == s[..k + 1] && s[k] in s[..k + 1]
  {
    assert s[..k + 1][k] == s[k];
  }

  /** OrderSaved of a prefix one task longer, unfolded once. */
  lemma OrderSavedSnoc(b: seq<Task>, k: int)
    requires 0 <= k < |b|
    ensures OrderSaved(b[..k + 1]) ==
      OrderSaved(b[..k]) + [b[k].(position := IndexOf(OrderSaved(b[..k]) + [b[k]], b[k]))]
  {
    var c := b[..k + 1];
    assert c[..|c| - 1] == b[..k];
    assert c[|c| - 1] == b[k];
  }

  lemma UpdatedPrefix(cur: seq<Task>, k: int, t: Task)
    requires 0 <= k < |cur|
    ensures cur[k := t][..k + 1] == cur[..k] + [t]
  {
  }

  lemma SaveStepSuffix(before: seq<Task>, cur: seq<Task>, k: int, t: Task)
    requires 0 <= k < |before| == |cur| && cur[k..] == before[k..]
    ensures cur[k := t][k + 1..] == before[k + 1..]
  {
    assert cur[k := t][k + 1..] == cur[k + 1..];
    assert cur[k + 1..] == cur[k..][1..];
  }

  /** The save-order loop has handled the first k tasks of `before`: they
      stand renumbered in `cur`, the rest are untouched, and the table holds
      the positions written so far. */
  ghost predicate SavedThrough(before: seq<Task>, cur: seq<Task>, k: int, rows0: map<int, Row>, rows: map<int, Row>)
  {
    && 0 <= k <= |cur| == |before|
    && cur[..k] == OrderSaved(before[..k]) && cur[k..] == before[k..]
    && rows == WritePositions(rows0, cur[..k])
  }

  /** The position the save-order loop gives the task at index k. */
  function SavedTask(cur: seq<Task>, k: int): (t: Task)
    requires 0 <= k < |cur|
    ensures t == cur[k].(position := t.position)
    ensures 0 <= t.position <= k
  {
    cur[k].(position := IndexOf(cur, cur[k]))
  }

  lemma SaveLoopStep(before: seq<Task>, cur: seq<Task>, k: int, rows0: map<int, Row>, rows: map<int, Row>)
    requires SavedThrough(before, cur, k, rows0, rows) && k < |cur|
    ensures SavedThrough(before, cur[k := SavedTask(cur, k)], k + 1, rows0, PositionWritten(rows, SavedTask(cur, k)))
  {
    assert cur[k] == before[k] by { assert cur[k..][0] == before[k..][0]; }
    SaveStep(before, cur, k);
    UpdatedPrefix(cur, k, SavedTask(cur, k));
    SaveStepSuffix(before, cur, k, SavedTask(cur, k));
    WriteStep(rows0, cur, k, SavedTask(cur, k));
  }

  lemma SaveLoopDone(before: seq<Task>, cur: seq<Task>, rows0: map<int, Row>, rows: map<int, Row>)
    requires SavedThrough(before, cur, |cur|, rows0, rows)
    ensures cur == OrderSaved(before) && rows == WritePositions(rows0, cur)
  {
    assert cur[..|cur|] == cur;
    assert before[..|before|] == before;
  }

  /** With distinct ids the save-order pass numbers every task by its index,
      so the positions are exactly 0..N-1. */
  lemma {:induction false} OrderSavedDistinct(s: seq<Task>)
    requires DistinctIds(s)
    ensures OrderSaved(s) == Renumber(s)
    decreases |s|
  {
    if s != [] {
      var n := |s|;
      var front := s[..n - 1];
      var last := s[n - 1];
      assert DistinctIds(front);
      OrderSavedDistinct(front);
      var f := OrderSaved(front);
      forall k | 0 <= k < |f| ensures f[k].id != last.id {
        assert f[k].id == front[k].id == s[k].id;
      }
      IndexOfLast(f, last);
      OrderSavedSnoc(s, n - 1);
      assert s[..n] == s;
      RenumberSnoc(s);
    }
  }

  /** A task whose id no earlier task has is found at the end. */
  lemma IndexOfLast(f: seq<Task>, x: Task)
    requires forall k :: 0 <= k < |f| ==> f[k].id != x.id
    ensures IndexOf(f + [x], x) == |f|
  {
    var fl := f + [x];
    forall k | 0 <= k < |f| ensures fl[k] != x {
      assert fl[k] == f[k];
    }
    assert fl[|f|] == x;
  }

  lemma RenumberSnoc(s: seq<Task>)
    requires s != []
    ensures Renumber(s) == Renumber(s[..|s| - 1]) + [s[|s| - 1].(position := |s| - 1)]
  {
  }

  /** The two lists agree on everything but positions. */
  predicate SameButPositions(a: seq<Task>, b: seq<Task>)
  {
    |a| == |b| && forall k :: 0 <= k < |a| ==> a[k] == b[k].(position := a[k].position)
  }

  lemma SameButPositionsDistinct(a: seq<Task>, b: seq<Task>)
    requires SameButPositions(a, b) && DistinctIds(b)
    ensures DistinctIds(a)
  {
    forall i, j | 0 <= i < j < |a| ensures a[i].id != a[j].id {
      assert a[i].id == b[i].id && a[j].id == b[j].id;
    }
  }

  lemma SameButPositionsRenumber(a: seq<Task>, b: seq<Task>)
    requires SameButPositions(a, b)
    ensures Renumber(a) == Renumber(b)
  {
    var left, right := Renumber(a), Renumber(b);
    forall k | 0 <= k < |a| ensures left[k] == right[k] {
      assert a[k] == b[k].(position := a[k].position);
    }
  }

  /** moveTask followed by its save-order pass, for tasks with distinct ids:
      the list is the reordered one with every position equal to its index. */
  lemma MovedThenSaved(s: seq<Task>, from: int, to: int)
    requires 0 <= from < |s| && 0 <= to < |s| && DistinctIds(s)
    ensures OrderSaved(Moved(s, from, to)) == Renumber(Reorder(s, from, to))
  {
    var m := Moved(s, from, to);
    var r := Reorder(s, from, to);
    ReorderKeepsDistinct(s, from, to);
    assert SameButPositions(m, r);
    SameButPositionsDistinct(m, r);
    OrderSavedDistinct(m);
    SameButPositionsRenumber(m, r);
  }

  /** A move applied to two lists that differ only in positions gives two
      lists that differ only in positions. */
  lemma SameButPositionsReorder(a: seq<Task>, b: seq<Task>, from: int, to: int)
    requires SameButPositions(a, b) && 0 <= from < |a| && 0 <= to < |a|
    ensures SameButPositions(Reorder(a, from, to), Reorder(b, from, to))
  {
    var ra, rb := Reorder(a, from, to), Reorder(b, from, to);
    forall k | 0 <= k < |ra| ensures ra[k] == rb[k].(position := ra[k].position) {
      var src := ReorderSource(from, to, k);
      assert ra[k] == a[src] && rb[k] == b[src];
    }
  }

  /** Two moveTask calls there and back, each with its save-order pass,
      give the original order with every task numbered by its index, for
      tasks with distinct ids. */
  lemma MoveTaskRoundTrip(s: seq<Task>, i: int, j: int)
    requires 0 <= i < |s| && 0 <= j < |s| && DistinctIds(s)
    ensures OrderSaved(Moved(OrderSaved(Moved(s, i, j)), j, i)) == Renumber(s)
  {
    var r := Reorder(s, i, j);
    MovedThenSaved(s, i, j);
    var t := OrderSaved(Moved(s, i, j));
    ReorderKeepsDistinct(s, i, j);
    RenumberSameButPositions(r);
    SameButPositionsDistinct(t, r);
    MovedThenSaved(t, j, i);
    ReorderRoundTrip(s, i, j);
    MoveBackRenumbered(t, r, s, i, j);
  }

  /** Numbering a list by index changes nothing but positions. */
  lemma RenumberSameButPositions(s: seq<Task>)
    ensures SameButPositions(Renumber(s), s)
  {
  }

  /** Moving back in a list that differs only in positions from one whose
      move back gives `s`, then numbering by index, numbers `s` by index. */
  lemma MoveBackRenumbered(t: seq<Task>, r: seq<Task>, s: seq<Task>, i: int, j: int)
    requires SameButPositions(t, r) && 0 <= i < |r| && 0 <= j < |r| && Reorder(r, j, i) == s
    ensures Renumber(Reorder(t, j, i)) == Renumber(s)
  {
    SameButPositionsReorder(t, r, j, i);
    SameButPositionsRenumber(Reorder(t, j, i), s);
  }

  /** The table after every row's position was rewritten: same rows, same
      other columns, positions exactly 0..N-1 (each in range, no two equal),
      and the old order by position kept. */
  predicate DenselyRenumbered(before: map<int, Row>, after: map<int, Row>)
  {
    && after.Keys == before.Keys
    && (forall id :: id in before ==> after[id] == before[id].(position := after[id].position))
    && (forall id :: id in before ==> 0 <= after[id].position < |before|)
    && (forall a, b :: a in before && b in before && a != b ==> after[a].position != after[b].position)
    && (forall a, b :: a in before && b in before && before[a].position < before[b].position ==>
          after[a].position < after[b].position)
  }

  /** saveTasksOrderFromDB's effect on the table: writing back a sorted
      listing numbered by index renumbers the table densely, in the old
      order. */
  lemma RenumberedListingIsDense(rows: map<int, Row>, listing: seq<Task>)
    requires IsListing(rows, listing) && SortedByPosition(listing)
    ensures DenselyRenumbered(rows, WritePositions(rows, Renumber(listing)))
  {
    var rn := Renumber(listing);
    var after := WritePositions(rows, rn);
    assert DistinctIds(rn) by {
      forall a, b | 0 <= a < b < |rn| ensures rn[a].id != rn[b].id {
        assert rn[a].id == listing[a].id && rn[b].id == listing[b].id;
      }
    }
    WritePositionsDistinct(rows, rn);
    assert forall k :: 0 <= k < |listing| ==> after[listing[k].id].position == k by {
      forall k | 0 <= k < |listing| ensures after[listing[k].id].position == k {
        assert rn[k].id == listing[k].id;
      }
    }
    IndexedPositionsInRange(rows, listing, after);
    IndexedPositionsDistinct(rows, listing, after);
    IndexedPositionsOrdered(rows, listing, after);
  }

  lemma IndexedPositionsInRange(rows: map<int, Row>, listing: seq<Task>, after: map<int, Row>)
    requires IsListing(rows, listing) && after.Keys == rows.Keys
    requires forall k :: 0 <= k < |listing| ==> after[listing[k].id].position == k
    ensures forall id :: id in rows ==> 0 <= after[id].position < |rows|
  {
    forall id | id in rows ensures 0 <= after[id].position < |rows| {
      var k :| 0 <= k < |listing| && listing[k].id == id;
    }
  }

  lemma IndexedPositionsDistinct(rows: map<int, Row>, listing: seq<Task>, after: map<int, Row>)
    requires IsListing(rows, listing) && after.Keys == rows.Keys
    requires forall k :: 0 <= k < |listing| ==> after[listing[k].id].position == k
    ensures forall a, b :: a in rows && b in rows && a != b ==> after[a].position != after[b].position
  {
    forall a, b | a in rows && b in rows && a != b ensures after[a].position != after[b].position {
      var ka :| 0 <= ka < |listing| && listing[ka].id == a;
      var kb :| 0 <= kb < |listing| && listing[kb].id == b;
    }
  }

  lemma IndexedPositionsOrdered(rows: map<int, Row>, listing: seq<Task>, after: map<int, Row>)
    requires IsListing(rows, listing) && SortedByPosition(listing) && after.Keys == rows.Keys
    requires forall k :: 0 <= k < |listing| ==> after[listing[k].id].position == k
    ensures forall a, b :: a in rows && b in rows && rows[a].position < rows[b].position ==>
      after[a].position < after[b].position
  {
    forall a, b | a in rows && b in rows && rows[a].position < rows[b].position
      ensures after[a].position < after[b].position
    {
      var ka :| 0 <= ka < |listing| && listing[ka].id == a;
      var kb :| 0 <= kb < |listing| && listing[kb].id == b;
      assert listing[ka].position == rows[a].position && listing[kb].position == rows[b].position;
      SortedIndexOrder(listing, ka, kb);
    }
  }

  /** In a list sorted by position, a smaller position stands earlier. */
  lemma SortedIndexOrder(s: seq<Task>, i: int, j: int)
    requires SortedByPosition(s) && 0 <= i < |s| && 0 <= j < |s|
    requires s[i].position < s[j].position
    ensures i < j
  {
  }
}
