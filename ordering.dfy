/**
 * The fractional position key shared by both copies of the task service
 * (server/app/tasks/service.py, app/tasks/service.py): the listing order, the
 * position of a new task, and the position a move gives a task. Positions are
 * real numbers; floating-point rounding is not modelled.
 */
module Ordering {
  import opened Common
  import opened Records

  /** No two rows share an id (the primary key). */
  predicate DistinctIds(rows: seq<Task>) {
    forall i, j :: 0 <= i < |rows| && 0 <= j < |rows| && rows[i].id == rows[j].id ==> i == j
  }

  predicate SortedByPosition(s: seq<Task>) {
    forall i, j :: 0 <= i < j < |s| ==> s[i].position <= s[j].position
  }

  /** Sorted with no two tasks at the same position. */
  predicate StrictlySorted(s: seq<Task>) {
    forall i, j :: 0 <= i < j < |s| ==> s[i].position < s[j].position
  }

  /** Tasks at pairwise different positions. */
  predicate DistinctPositions(s: seq<Task>) {
    forall i, j :: 0 <= i < |s| && 0 <= j < |s| && i != j ==> s[i].position != s[j].position
  }

  // ---------------------------------------------------------------------------
  // The listing: `WHERE user_id = :user ORDER BY position`

  /** The rows of one user, in table order. */
  function UserRows(rows: seq<Task>, user: int): (r: seq<Task>)
    ensures forall t :: t in r <==> t in rows && t.userId == user
    ensures |r| <= |rows|
  {
    if |rows| == 0 then []
    else if rows[|rows| - 1].userId == user then UserRows(rows[..|rows| - 1], user) + [rows[|rows| - 1]]
    else UserRows(rows[..|rows| - 1], user)
  }

  /** Putting a task in front of a sorted listing whose tasks are all at or above it keeps it sorted. */
  lemma PrependSorted(h: Task, s: seq<Task>)
    requires SortedByPosition(s)
    requires forall x :: x in s ==> h.position <= x.position
    ensures SortedByPosition([h] + s)
  {
    var r := [h] + s;
    forall i, j | 0 <= i < j < |r| ensures r[i].position <= r[j].position {
      if i == 0 { assert r[j] == s[j - 1]; } else { assert r[i] == s[i - 1] && r[j] == s[j - 1]; }
    }
  }

  /** Puts `t` after every task at a position not above its own. */
  function Insert(s: seq<Task>, t: Task): (r: seq<Task>)
    requires SortedByPosition(s)
    ensures forall x :: x in r ==> x in s || x == t
    ensures SortedByPosition(r)
    ensures multiset(r) == multiset(s) + multiset{t}
  {
    if |s| == 0 then [t]
    else if t.position < s[0].position then
      PrependSorted(t, s);
      [t] + s
    else
      var rest := Insert(s[1..], t);
      assert s == [s[0]] + s[1..];
      assert forall x :: x in s[1..] ==> s[0].position <= x.position;
      assert forall x :: x in rest ==> s[0].position <= x.position;
      PrependSorted(s[0], rest);
      [s[0]] + rest
  }

  /**
   * `ORDER BY position`: a permutation of the rows in non-decreasing position;
   * rows at equal positions keep their table order.
   */
  function OrderByPosition(s: seq<Task>): (r: seq<Task>)
    ensures SortedByPosition(r)
    ensures multiset(r) == multiset(s)
  {
    if |s| == 0 then []
    else
      assert s == s[..|s| - 1] + [s[|s| - 1]];
      Insert(OrderByPosition(s[..|s| - 1]), s[|s| - 1])
  }

  /** The listing a task service reads: one user's tasks in ascending position. */
  function Listing(rows: seq<Task>, user: int): (r: seq<Task>)
    ensures SortedByPosition(r)
    ensures forall t :: t in r <==> t in rows && t.userId == user
    ensures multiset(r) == multiset(UserRows(rows, user))
  {
    var r := OrderByPosition(UserRows(rows, user));
    assert forall t :: t in r <==> t in multiset(r);
    r
  }

  /** A sorted listing of tasks at distinct positions is strictly sorted. */
  lemma SortedDistinctIsStrict(s: seq<Task>)
    requires SortedByPosition(s) && DistinctPositions(s)
    ensures StrictlySorted(s)
  {
  }

  lemma HeadIsLeast(a: seq<Task>, x: Task)
    requires SortedByPosition(a) && x in a
    ensures a[0].position <= x.position
  {
  }

  lemma TailMultiset(a: seq<Task>)
    requires |a| > 0
    ensures multiset(a[1..]) == multiset(a) - multiset{a[0]}
  {
    assert a == [a[0]] + a[1..];
  }

  /** Two sorted arrangements of the same tasks at distinct positions start with the same task. */
  lemma HeadUnique(a: seq<Task>, b: seq<Task>)
    requires |a| > 0 && |b| > 0 && SortedByPosition(a) && SortedByPosition(b) && DistinctPositions(a)
    requires multiset(a) == multiset(b)
    ensures a[0] == b[0]
  {
    assert b[0] in multiset(a) && a[0] in multiset(b);
    HeadIsLeast(a, b[0]);
    HeadIsLeast(b, a[0]);
    var i :| 0 <= i < |a| && a[i] == b[0];
    assert a[i].position == a[0].position;
  }

  /**
   * `ORDER BY position` has only one answer when positions are distinct: two
   * sorted arrangements of the same tasks are equal.
   */
  lemma {:induction false} SortedArrangementUnique(a: seq<Task>, b: seq<Task>)
    requires SortedByPosition(a) && SortedByPosition(b) && DistinctPositions(a)
    requires multiset(a) == multiset(b)
    ensures a == b
  {
    assert |a| == |multiset(a)| == |b|;
    if |a| > 0 {
      HeadUnique(a, b);
      TailMultiset(a);
      TailMultiset(b);
      assert SortedByPosition(a[1..]) && SortedByPosition(b[1..]) && DistinctPositions(a[1..]);
      SortedArrangementUnique(a[1..], b[1..]);
      assert a == [a[0]] + a[1..];
      assert b == [b[0]] + b[1..];
    }
  }

  // ---------------------------------------------------------------------------
  // Position of a new task: `(max(position) or 0.0) + 1.0`

  /** `SELECT max(position)`: `None` for a user with no tasks. */
  function MaxPosition(ts: seq<Task>): (r: Option<real>)
    ensures r.None? <==> |ts| == 0
    ensures r.Some? ==> (exists i :: 0 <= i < |ts| && ts[i].position == r.value)
    ensures r.Some? ==> forall i :: 0 <= i < |ts| ==> ts[i].position <= r.value
  {
    if |ts| == 0 then None
    else match MaxPosition(ts[..|ts| - 1])
      case None => Some(ts[|ts| - 1].position)
      case Some(m) => Some(if ts[|ts| - 1].position > m then ts[|ts| - 1].position else m)
  }

  /** `(max_position or 0.0) + 1.0`; a maximum of 0.0 is falsy and gives the same value. */
  function NewPosition(maxPosition: Option<real>): (p: real)
    ensures p == (if maxPosition.None? then 1.0 else maxPosition.value + 1.0)
  {
    (if maxPosition.Some? && maxPosition.value != 0.0 then maxPosition.value else 0.0) + 1.0
  }

  /** A new task goes after every task the user has, at 1.0 when there are none. */
  lemma NewPositionAfterAll(ts: seq<Task>)
    ensures forall i :: 0 <= i < |ts| ==> ts[i].position < NewPosition(MaxPosition(ts))
    ensures |ts| == 0 ==> NewPosition(MaxPosition(ts)) == 1.0
  {
  }

  // ---------------------------------------------------------------------------
  // Position of a moved task

  /** Move to top: one below the first task, or 0.0 for an empty listing. */
  function TopPosition(order: seq<Task>): real
  {
    if |order| == 0 then 0.0 else order[0].position - 1.0
  }

  /** Move after `order[k]`: the midpoint with its successor, or one past it when it is last. */
  function AfterPosition(order: seq<Task>, k: nat): real
    requires k < |order|
  {
    if k + 1 < |order| then (order[k].position + order[k + 1].position) / 2.0
    else order[k].position + 1.0
  }

  /** `next((t for t in tasks if t.id == after_id), None)` with `tasks.index`: the first index holding the id. */
  function FindById(order: seq<Task>, id: int): (r: Option<nat>)
    ensures r.Some? ==> r.value < |order| && order[r.value].id == id
    ensures r.Some? ==> forall i :: 0 <= i < r.value ==> order[i].id != id
    ensures r.None? ==> forall i :: 0 <= i < |order| ==> order[i].id != id
  {
    if |order| == 0 then None
    else if order[0].id == id then Some(0)
    else match FindById(order[1..], id)
      case None => None
      case Some(k) => Some(k + 1)
  }

  /**
   * `next((t for t in tasks if t.id == after_id), None)` followed by
   * `tasks.index(after_task)`: a scan for the first task with the id.
   */
  method ScanForId(order: seq<Task>, id: int) returns (r: Option<nat>)
    ensures r == FindById(order, id)
  {
    var j := 0;
    while j < |order| && order[j].id != id
      invariant 0 <= j <= |order|
      invariant forall q :: 0 <= q < j ==> order[q].id != id
    {
      j := j + 1;
    }
    if j == |order| {
      return None;
    }
    return Some(j);
  }

  /** The new position of a moved task; `None` when `after_id` is not in the listing. */
  function MovePosition(order: seq<Task>, afterId: Option<int>): (r: Option<real>)
    ensures r.None? <==> afterId.Some? && FindById(order, afterId.value).None?
  {
    if afterId.None? then Some(TopPosition(order))
    else match FindById(order, afterId.value)
      case None => None
      case Some(k) => Some(AfterPosition(order, k))
  }

  /**
   * The position `move_task` computes from the listing `tasks`: one below the
   * first task for `after_id = None`, else from the task found by a scan for
   * `after_id`; `None` when the scan finds nothing.
   */
  method ComputeMovePosition(tasks: seq<Task>, afterId: Option<int>) returns (p: Option<real>)
    ensures p == MovePosition(tasks, afterId)
  {
    if afterId.None? {
      return Some(if |tasks| > 0 then tasks[0].position - 1.0 else 0.0);
    }
    var afterIndex := ScanForId(tasks, afterId.value);
    if afterIndex.None? {
      return None;
    }
    var k := afterIndex.value;
    p := Some(if k + 1 < |tasks| then (tasks[k].position + tasks[k + 1].position) / 2.0
              else tasks[k].position + 1.0);
  }

  /** Moving to the top puts a task strictly below every task of the listing, itself included. */
  lemma TopPositionBelowAll(order: seq<Task>)
    requires SortedByPosition(order)
    ensures forall i :: 0 <= i < |order| ==> TopPosition(order) < order[i].position
  {
  }

  /**
   * Moving after `order[k]` lands strictly between it and its successor when
   * the two differ, and strictly above every task when it is last.
   */
  lemma AfterPositionBetween(order: seq<Task>, k: nat)
    requires SortedByPosition(order) && k < |order|
    ensures order[k].position < AfterPosition(order, k)
            || (k + 1 < |order| && order[k].position == order[k + 1].position)
    ensures k + 1 < |order| && order[k].position < order[k + 1].position ==>
              order[k].position < AfterPosition(order, k) < order[k + 1].position
    ensures k + 1 == |order| ==>
              forall i :: 0 <= i < |order| ==> order[i].position < AfterPosition(order, k)
  {
  }

  /**
   * With distinct positions, a task moved after `order[k]` (not itself) sorts
   * immediately after it: no other task lies between the two.
   */
  lemma MovedImmediatelyAfter(order: seq<Task>, m: nat, k: nat)
    requires StrictlySorted(order) && m < |order| && k < |order| && m != k
    ensures order[k].position < AfterPosition(order, k)
    ensures forall j :: 0 <= j < |order| && j != m && j != k ==>
              order[j].position < order[k].position || AfterPosition(order, k) < order[j].position
  {
    var p := AfterPosition(order, k);
    forall j | 0 <= j < |order| && j != m && j != k
      ensures order[j].position < order[k].position || p < order[j].position
    {
      if j > k {
        assert order[k + 1].position <= order[j].position;
        assert p < order[k + 1].position;
      }
    }
  }

  /** With distinct positions, a task moved to the top sorts before every other task. */
  lemma MovedToTop(order: seq<Task>, m: nat)
    requires StrictlySorted(order) && m < |order|
    ensures forall j :: 0 <= j < |order| ==> TopPosition(order) < order[j].position
  {
  }

  // ---------------------------------------------------------------------------
  // The listing after a move

  /** Dropping one task from a strictly sorted listing keeps it strictly sorted. */
  lemma RemoveAtStrictlySorted(order: seq<Task>, m: nat)
    requires StrictlySorted(order) && m < |order|
    ensures StrictlySorted(RemoveAt(order, m))
  {
    var rest := RemoveAt(order, m);
    forall i, j | 0 <= i < j < |rest| ensures rest[i].position < rest[j].position {
      var i0 := if i < m then i else i + 1;
      var j0 := if j < m then j else j + 1;
      assert rest[i] == order[i0] && rest[j] == order[j0] && i0 < j0;
    }
  }

  lemma StrictlySortedIsDistinct(s: seq<Task>)
    requires StrictlySorted(s)
    ensures SortedByPosition(s) && DistinctPositions(s)
  {
    forall i, j | 0 <= i < |s| && 0 <= j < |s| && i != j ensures s[i].position != s[j].position {
      if i < j { assert s[i].position < s[j].position; } else { assert s[j].position < s[i].position; }
    }
  }

  /** `a + [x] + b` is strictly sorted when `a` and `b` are, and `x` lies strictly between them. */
  lemma SpliceStrictlySorted(a: seq<Task>, x: Task, b: seq<Task>)
    requires StrictlySorted(a) && StrictlySorted(b)
    requires forall i :: 0 <= i < |a| ==> a[i].position < x.position
    requires forall i :: 0 <= i < |b| ==> x.position < b[i].position
    ensures StrictlySorted(a + [x] + b)
  {
    var c := a + [x] + b;
    forall i, j | 0 <= i < j < |c| ensures c[i].position < c[j].position {
      if j < |a| {
        assert c[i] == a[i] && c[j] == a[j];
      } else if j == |a| {
        assert c[i] == a[i] && c[j] == x;
      } else if i > |a| {
        assert c[i] == b[i - |a| - 1] && c[j] == b[j - |a| - 1];
      } else if i == |a| {
        assert c[i] == x && c[j] == b[j - |a| - 1];
      } else {
        assert c[i] == a[i] && c[j] == b[j - |a| - 1];
      }
    }
  }

  /**
   * The sorted arrangement of a multiset of tasks at distinct positions: any
   * strictly sorted sequence holding them is what `ORDER BY position` gives.
   */
  lemma OrderByPositionOfStrict(s: seq<Task>, c: seq<Task>)
    requires StrictlySorted(c) && multiset(c) == multiset(s)
    ensures OrderByPosition(s) == c
  {
    StrictlySortedIsDistinct(c);
    SortedArrangementUnique(c, OrderByPosition(s));
  }

  /** Replacing `order[m]` by `x` holds the same tasks as putting `x` anywhere among the others. */
  lemma ReplaceIsSplice(order: seq<Task>, m: nat, x: Task, a: seq<Task>, b: seq<Task>)
    requires m < |order| && RemoveAt(order, m) == a + b
    ensures multiset(a + [x] + b) == multiset(order[m := x])
  {
    assert order == order[..m] + [order[m]] + order[m + 1..];
    assert RemoveAt(order, m) == order[..m] + order[m + 1..];
    assert multiset(a + [x] + b) == multiset(a + b) + multiset{x};
  }

  /** The tasks of the listing that a move after `order[k]` keeps below and above the moved one. */
  lemma MoveAfterSplitsRest(order: seq<Task>, m: nat, k: nat)
    requires StrictlySorted(order) && m < |order| && k < |order| && m != k
    ensures var p := AfterPosition(order, k);
            var rest := RemoveAt(order, m);
            var k1 := if k < m then k else k - 1;
            && k1 < |rest|
            && (forall i :: 0 <= i <= k1 ==> rest[i].position < p)
            && (forall i :: k1 < i < |rest| ==> p < rest[i].position)
  {
    var p := AfterPosition(order, k);
    var rest := RemoveAt(order, m);
    var k1 := if k < m then k else k - 1;
    MovedImmediatelyAfter(order, m, k);
    forall i | 0 <= i <= k1 ensures rest[i].position < p {
      var i0 := if i < m then i else i + 1;
      assert rest[i] == order[i0] && i0 <= k;
      if i0 < k { assert order[i0].position < order[k].position; }
    }
    forall i | k1 < i < |rest| ensures p < rest[i].position {
      var i0 := if i < m then i else i + 1;
      assert rest[i] == order[i0] && i0 > k && i0 != m;
      assert order[k].position < order[i0].position;
    }
  }

  /** `order` with `order[m]` taken out and `x` put right after `order[k]`. */
  function PlaceAfter(order: seq<Task>, m: nat, k: nat, x: Task): (r: seq<Task>)
    requires m < |order| && k < |order| && m != k
    ensures |r| == |order|
  {
    var rest := RemoveAt(order, m);
    var k1 := if k < m then k else k - 1;
    rest[..k1 + 1] + [x] + rest[k1 + 1..]
  }

  /** Putting `x` into a strictly sorted listing right after index `k1`, where it sorts, keeps it strictly sorted. */
  lemma InsertAfterIndexStrictlySorted(rest: seq<Task>, k1: nat, x: Task)
    requires StrictlySorted(rest) && k1 < |rest|
    requires forall i :: 0 <= i <= k1 ==> rest[i].position < x.position
    requires forall i :: k1 < i < |rest| ==> x.position < rest[i].position
    ensures StrictlySorted(rest[..k1 + 1] + [x] + rest[k1 + 1..])
  {
    var a, b := rest[..k1 + 1], rest[k1 + 1..];
    StrictlySortedSlice(rest, 0, k1 + 1);
    StrictlySortedSlice(rest, k1 + 1, |rest|);
    assert rest[0..k1 + 1] == a && rest[k1 + 1..|rest|] == b;
    assert forall i :: 0 <= i < |a| ==> a[i] == rest[i];
    assert forall i :: 0 <= i < |b| ==> b[i] == rest[k1 + 1 + i];
    SpliceStrictlySorted(a, x, b);
  }

  /** A slice of a strictly sorted listing is strictly sorted. */
  lemma StrictlySortedSlice(s: seq<Task>, i: nat, j: nat)
    requires StrictlySorted(s) && i <= j <= |s|
    ensures StrictlySorted(s[i..j])
  {
    var c := s[i..j];
    forall x, y | 0 <= x < y < |c| ensures c[x].position < c[y].position {
      assert c[x] == s[i + x] && c[y] == s[i + y];
    }
  }

  /** The arrangement `PlaceAfter` gives a move after `order[k]` is strictly sorted. */
  lemma PlaceAfterStrictlySorted(order: seq<Task>, m: nat, k: nat)
    requires StrictlySorted(order) && m < |order| && k < |order| && m != k
    ensures StrictlySorted(PlaceAfter(order, m, k, order[m].(position := AfterPosition(order, k))))
  {
    var x := order[m].(position := AfterPosition(order, k));
    var rest := RemoveAt(order, m);
    var k1 := if k < m then k else k - 1;
    MoveAfterSplitsRest(order, m, k);
    RemoveAtStrictlySorted(order, m);
    InsertAfterIndexStrictlySorted(rest, k1, x);
    assert PlaceAfter(order, m, k, x) == rest[..k1 + 1] + [x] + rest[k1 + 1..];
  }

  /**
   * Moving `order[m]` after `order[k]` (another task) in a listing with
   * distinct positions: the new listing is the old one without the moved
   * task, with the moved task put back right after `order[k]`. Every other
   * task keeps its place relative to the rest.
   */
  lemma MoveAfterReorders(order: seq<Task>, m: nat, k: nat)
    requires StrictlySorted(order) && m < |order| && k < |order| && m != k
    ensures var moved := order[m].(position := AfterPosition(order, k));
            && OrderByPosition(order[m := moved]) == PlaceAfter(order, m, k, moved)
            && StrictlySorted(PlaceAfter(order, m, k, moved))
  {
    var moved := order[m].(position := AfterPosition(order, k));
    var rest := RemoveAt(order, m);
    var k1 := if k < m then k else k - 1;
    PlaceAfterStrictlySorted(order, m, k);
    var a, b := rest[..k1 + 1], rest[k1 + 1..];
    assert rest == a + b;
    ReplaceIsSplice(order, m, moved, a, b);
    assert PlaceAfter(order, m, k, moved) == a + [moved] + b;
    OrderByPositionOfStrict(order[m := moved], a + [moved] + b);
  }

  /**
   * Moving `order[m]` to the top of a listing with distinct positions puts
   * it first, with the other tasks after it in their old order.
   */
  lemma MoveToTopReorders(order: seq<Task>, m: nat)
    requires StrictlySorted(order) && m < |order|
    ensures var moved := order[m].(position := TopPosition(order));
            && OrderByPosition(order[m := moved]) == [moved] + RemoveAt(order, m)
            && StrictlySorted([moved] + RemoveAt(order, m))
  {
    var moved := order[m].(position := TopPosition(order));
    var rest := RemoveAt(order, m);
    RemoveAtStrictlySorted(order, m);
    forall i | 0 <= i < |rest| ensures moved.position < rest[i].position {
      var i0 := if i < m then i else i + 1;
      assert rest[i] == order[i0];
      if i0 > 0 { assert order[0].position < order[i0].position; }
    }
    SpliceStrictlySorted([], moved, rest);
    assert [] + [moved] + rest == [moved] + rest;
    assert rest == [] + rest;
    ReplaceIsSplice(order, m, moved, [], rest);
    OrderByPositionOfStrict(order[m := moved], [moved] + rest);
  }

  /** Moving a task after itself keeps the listing order: it lands between itself and its successor. */
  lemma MoveAfterSelfKeepsOrder(order: seq<Task>, m: nat)
    requires StrictlySorted(order) && m < |order|
    ensures var moved := order[m].(position := AfterPosition(order, m));
            && OrderByPosition(order[m := moved]) == order[m := moved]
            && StrictlySorted(order[m := moved])
  {
    var moved := order[m].(position := AfterPosition(order, m));
    var c := order[m := moved];
    forall i, j | 0 <= i < j < |c| ensures c[i].position < c[j].position {
      if j == m {
        assert c[i] == order[i];
      } else if i == m {
        assert c[j] == order[j];
        if j > m + 1 { assert order[m + 1].position < order[j].position; }
      } else {
        assert c[i] == order[i] && c[j] == order[j];
      }
    }
    OrderByPositionOfStrict(c, c);
  }

  // ---------------------------------------------------------------------------
  // The same, stated on the table rows `move_task` rewrites

  /** The rows once `task.position` of row `i` is set to `p`. */
  function SetPosition(rows: seq<Task>, i: nat, p: real): (r: seq<Task>)
    requires i < |rows|
    ensures |r| == |rows| && r[i].position == p
    ensures r[i] == rows[i].(position := p)
    ensures forall j :: 0 <= j < |rows| && j != i ==> r[j] == rows[j]
  {
    rows[i := rows[i].(position := p)]
  }

  /** The filter distributes over concatenation. */
  lemma {:induction false} UserRowsConcat(a: seq<Task>, b: seq<Task>, user: int)
    ensures UserRows(a + b, user) == UserRows(a, user) + UserRows(b, user)
  {
    if |b| == 0 {
      assert a + b == a;
    } else {
      var n := |b| - 1;
      assert (a + b)[..|a + b| - 1] == a + b[..n];
      UserRowsConcat(a, b[..n], user);
    }
  }

  /** A row of the user between two stretches of rows sits between their rows of the user. */
  lemma UserRowsAround(pre: seq<Task>, x: Task, post: seq<Task>, user: int)
    requires x.userId == user
    ensures UserRows(pre + [x] + post, user) == UserRows(pre, user) + [x] + UserRows(post, user)
  {
    assert UserRows([x], user) == [x];
    UserRowsConcat(pre, [x], user);
    UserRowsConcat(pre + [x], post, user);
  }

  /** Rewriting one of a user's rows replaces it, and only it, among that user's rows. */
  lemma UserRowsAfterRewrite(rows: seq<Task>, user: int, i: nat, x: Task)
    requires i < |rows| && rows[i].userId == user && x.userId == user
    ensures multiset(UserRows(rows[i := x], user))
         == multiset(UserRows(rows, user)) - multiset{rows[i]} + multiset{x}
  {
    var pre, post := rows[..i], rows[i + 1..];
    var a, b := UserRows(pre, user), UserRows(post, user);
    assert rows == pre + [rows[i]] + post;
    assert rows[i := x] == pre + [x] + post;
    UserRowsAround(pre, x, post, user);
    UserRowsAround(pre, rows[i], post, user);
    assert multiset(a + [x] + b) == multiset(a) + multiset{x} + multiset(b);
    assert multiset(a + [rows[i]] + b) == multiset(a) + multiset{rows[i]} + multiset(b);
  }

  /** Where row `i` sits in its owner's listing. */
  function ListingIndex(rows: seq<Task>, user: int, i: nat): (m: nat)
    requires DistinctIds(rows) && i < |rows| && rows[i].userId == user
    ensures m < |Listing(rows, user)| && Listing(rows, user)[m] == rows[i]
    ensures FindById(Listing(rows, user), rows[i].id) == Some(m)
  {
    var order := Listing(rows, user);
    assert rows[i] in order;
    var f := FindById(order, rows[i].id);
    assert f.Some?;
    assert order[f.value] in rows;
    f.value
  }

  /** The listing after row `i` of a user whose listing has distinct positions gets position `p`. */
  lemma ListingAfterSetPosition(rows: seq<Task>, user: int, i: nat, p: real)
    requires DistinctIds(rows) && i < |rows| && rows[i].userId == user
    ensures var order := Listing(rows, user);
            var m := ListingIndex(rows, user, i);
            multiset(UserRows(SetPosition(rows, i, p), user)) == multiset(order[m := rows[i].(position := p)])
  {
    var order := Listing(rows, user);
    var m := ListingIndex(rows, user, i);
    UserRowsAfterRewrite(rows, user, i, rows[i].(position := p));
  }

  /**
   * `move_task(task, after_id=None)` on a listing with distinct positions: the
   * moved task comes first, the others follow in their old order.
   */
  lemma ListingAfterMoveToTop(rows: seq<Task>, user: int, i: nat)
    requires DistinctIds(rows) && i < |rows| && rows[i].userId == user
    requires StrictlySorted(Listing(rows, user))
    ensures var order := Listing(rows, user);
            Listing(SetPosition(rows, i, TopPosition(order)), user)
              == [rows[i].(position := TopPosition(order))] + RemoveAt(order, ListingIndex(rows, user, i))
  {
    var order := Listing(rows, user);
    var m := ListingIndex(rows, user, i);
    var p := TopPosition(order);
    var moved := order[m].(position := p);
    MoveToTopReorders(order, m);
    ListingAfterSetPosition(rows, user, i, p);
    var c := [moved] + RemoveAt(order, m);
    assert multiset(c) == multiset(order[m := moved]);
    OrderByPositionOfStrict(UserRows(SetPosition(rows, i, p), user), c);
  }

  /**
   * `move_task(task, after_id)` for another task of the listing, with
   * distinct positions: the moved task comes right after the `after_id`
   * task, the others keep their old order.
   */
  lemma ListingAfterMoveAfter(rows: seq<Task>, user: int, i: nat, afterId: int)
    requires DistinctIds(rows) && i < |rows| && rows[i].userId == user && afterId != rows[i].id
    requires StrictlySorted(Listing(rows, user)) && FindById(Listing(rows, user), afterId).Some?
    ensures var order := Listing(rows, user);
            var k := FindById(order, afterId).value;
            Listing(SetPosition(rows, i, AfterPosition(order, k)), user)
              == PlaceAfter(order, ListingIndex(rows, user, i), k, rows[i].(position := AfterPosition(order, k)))
  {
    var order := Listing(rows, user);
    var k := FindById(order, afterId).value;
    var m := ListingIndex(rows, user, i);
    var p := AfterPosition(order, k);
    var moved := order[m].(position := p);
    MoveAfterReorders(order, m, k);
    ListingAfterSetPosition(rows, user, i, p);
    var c := PlaceAfter(order, m, k, moved);
    assert multiset(c) == multiset(order[m := moved]);
    OrderByPositionOfStrict(UserRows(SetPosition(rows, i, p), user), c);
  }

  /** `move_task(task, after_id=task)`: the listing keeps its order. */
  lemma ListingAfterMoveAfterSelf(rows: seq<Task>, user: int, i: nat)
    requires DistinctIds(rows) && i < |rows| && rows[i].userId == user
    requires StrictlySorted(Listing(rows, user))
    ensures var order := Listing(rows, user);
            var m := ListingIndex(rows, user, i);
            Listing(SetPosition(rows, i, AfterPosition(order, m)), user)
              == order[m := rows[i].(position := AfterPosition(order, m))]
  {
    var order := Listing(rows, user);
    var m := ListingIndex(rows, user, i);
    var p := AfterPosition(order, m);
    var moved := order[m].(position := p);
    MoveAfterSelfKeepsOrder(order, m);
    ListingAfterSetPosition(rows, user, i, p);
    OrderByPositionOfStrict(UserRows(SetPosition(rows, i, p), user), order[m := moved]);
  }
}
