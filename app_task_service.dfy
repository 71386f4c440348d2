/**
 * The older task service (app/tasks/service.py): the same owner-scoped
 * operations and position arithmetic as `TaskService`, over a `tasks` table
 * with no tags. Results are the rows themselves.
 */
module AppTaskService {
  import opened Common
  import opened Records
  import opened Ordering
  import Store

  /** The `tasks` table in table order; ids are keys below the next id to hand out. */
  class TaskTable {
    var rows: seq<Task>
    var nextId: int

    ghost predicate Valid()
      reads this
    {
      DistinctIds(rows) && forall i :: 0 <= i < |rows| ==> rows[i].id < nextId
    }

    constructor ()
      ensures Valid() && rows == []
    {
      rows := [];
      nextId := 1;
    }

    /** `list`: the user's tasks in ascending position. */
    function List(user: int): (r: seq<Task>)
      reads this
      ensures SortedByPosition(r)
      ensures forall t :: t in r <==> t in rows && t.userId == user
      ensures multiset(r) == multiset(UserRows(rows, user))
    {
      Listing(rows, user)
    }

    /** `create`: a new task of the user after all of the user's tasks. */
    method Create(user: int, title: string, description: string) returns (t: Task)
      requires Valid()
      modifies this
      ensures Valid()
      ensures t == Task(t.id, title, description, NewPosition(MaxPosition(UserRows(old(rows), user))), false, user)
      ensures rows == old(rows) + [t]
      ensures forall j :: 0 <= j < |old(rows)| ==> old(rows)[j].id != t.id
    {
      var maxPosition := MaxPosition(UserRows(rows, user));
      t := Task(nextId, title, description, NewPosition(maxPosition), false, user);
      rows := rows + [t];
      nextId := nextId + 1;
    }

    /** `update`: `None` for a task the user does not own; otherwise only the supplied fields change. */
    method Update(taskId: int, user: int, u: TaskUpdate) returns (r: Option<Task>)
      requires Valid()
      modifies this
      ensures Valid()
      ensures r.Some? <==> old(Store.FindOwned(rows, taskId, user)).Some?
      ensures r.None? ==> rows == old(rows)
      ensures r.Some? ==>
                && var i := old(Store.FindOwned(rows, taskId, user)).value;
                && r.value == ApplyUpdate(old(rows)[i], u) && rows == old(rows)[i := r.value]
      ensures nextId == old(nextId)
    {
      var found := Store.FindOwned(rows, taskId, user);
      if found.None? {
        return None;
      }
      var i := found.value;
      var t := ApplyUpdate(rows[i], u);
      rows := rows[i := t];
      assert forall j :: 0 <= j < |rows| ==> rows[j].id == old(rows)[j].id;
      r := Some(t);
    }

    /** `toggle_complete`: `None` for a task the user does not own; otherwise `completed` is negated. */
    method ToggleComplete(taskId: int, user: int) returns (r: Option<Task>)
      requires Valid()
      modifies this
      ensures Valid()
      ensures r.Some? <==> old(Store.FindOwned(rows, taskId, user)).Some?
      ensures r.None? ==> rows == old(rows)
      ensures r.Some? ==>
                && var i := old(Store.FindOwned(rows, taskId, user)).value;
                && r.value == old(rows)[i].(completed := !old(rows)[i].completed) && rows == old(rows)[i := r.value]
      ensures nextId == old(nextId)
    {
      var found := Store.FindOwned(rows, taskId, user);
      if found.None? {
        return None;
      }
      var i := found.value;
      var t := rows[i].(completed := !rows[i].completed);
      rows := rows[i := t];
      assert forall j :: 0 <= j < |rows| ==> rows[j].id == old(rows)[j].id;
      r := Some(t);
    }

    /** `delete`: `None` for a task the user does not own; otherwise that row, and only it, is removed and returned. */
    method Delete(taskId: int, user: int) returns (r: Option<Task>)
      requires Valid()
      modifies this
      ensures Valid()
      ensures r.Some? <==> old(Store.FindOwned(rows, taskId, user)).Some?
      ensures r.None? ==> rows == old(rows)
      ensures r.Some? ==>
                && var i := old(Store.FindOwned(rows, taskId, user)).value;
                && r.value == old(rows)[i] && rows == RemoveAt(old(rows), i)
      ensures nextId == old(nextId)
    {
      var found := Store.FindOwned(rows, taskId, user);
      if found.None? {
        return None;
      }
      var i := found.value;
      r := Some(rows[i]);
      ghost var before := rows;
      rows := RemoveAt(rows, i);
      forall a, b | 0 <= a < |rows| && 0 <= b < |rows| && rows[a].id == rows[b].id
        ensures a == b
      {
        var a0 := if a < i then a else a + 1;
        var b0 := if b < i then b else b + 1;
        assert rows[a] == before[a0] && rows[b] == before[b0];
      }
    }

    /**
     * `move_task`: `None` for a task the user does not own or an unknown
     * `after_id`, with nothing written; otherwise only the task's position
     * changes, to `MovePosition` of the user's listing.
     */
    method MoveTask(taskId: int, user: int, afterId: Option<int>) returns (r: Option<Task>)
      requires Valid()
      modifies this
      ensures Valid()
      ensures r.Some? <==> old(Store.FindOwned(rows, taskId, user)).Some?
                           && MovePosition(Listing(old(rows), user), afterId).Some?
      ensures r.None? ==> rows == old(rows)
      ensures r.Some? ==>
                && var i := old(Store.FindOwned(rows, taskId, user)).value;
                && rows == SetPosition(old(rows), i, MovePosition(Listing(old(rows), user), afterId).value)
                && r.value == rows[i]
      ensures nextId == old(nextId)
    {
      var found := Store.FindOwned(rows, taskId, user);
      if found.None? {
        return None;
      }
      var i := found.value;
      var position := ComputeMovePosition(Listing(rows, user), afterId);
      if position.None? {
        return None;
      }
      var t := rows[i].(position := position.value);
      rows := rows[i := t];
      assert forall j :: 0 <= j < |rows| ==> rows[j].id == old(rows)[j].id;
      r := Some(t);
    }
  }
}
