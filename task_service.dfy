/**
 * The server's task service (server/app/tasks/service.py) over the store of
 * `Store`: owner-scoped reads and writes of task rows, the position key of a
 * new or moved task, and the read model with the task's tags.
 */
module TaskService {
  import opened Common
  import opened Records
  import opened Ordering
  import opened Store

  /** A tag as `_to_read` finds it in `task.tags`: its id is `None` while the row is not flushed. */
  datatype LoadedTag = LoadedTag(id: Option<int>, name: string)

  /** `_to_read`: the task's fields and its tags, leaving out any tag without an id. */
  function ToRead(task: Task, loaded: set<LoadedTag>): (r: TaskRead)
    ensures r.id == task.id && r.title == task.title && r.description == task.description
    ensures r.position == task.position && r.completed == task.completed
    ensures forall tr :: tr in r.tags <==> LoadedTag(Some(tr.id), tr.name) in loaded
  {
    TaskRead(task.id, task.title, task.description, task.position, task.completed,
             set t | t in loaded && t.id.Some? :: TagRead(t.id.value, t.name))
  }

  /** `selectinload(Task.tags)`: the tags linked to a task, as stored (each with its id). */
  function LoadedTags(tags: map<int, Tag>, links: set<Link>, taskId: int): set<LoadedTag> {
    set k | k in tags && (taskId, k) in links :: LoadedTag(Some(k), tags[k].name)
  }

  /** The read model of a stored task. */
  function Read(tags: map<int, Tag>, links: set<Link>, task: Task): TaskRead {
    ToRead(task, LoadedTags(tags, links, task.id))
  }

  /** A stored task is read with exactly the tags linked to it: none has a missing id to drop. */
  lemma ReadListsLinkedTags(tags: map<int, Tag>, links: set<Link>, task: Task)
    ensures forall tr :: tr in Read(tags, links, task).tags <==>
              tr.id in tags && (task.id, tr.id) in links && tr.name == tags[tr.id].name
  {
    var r := Read(tags, links, task);
    forall tr: TagRead | tr.id in tags && (task.id, tr.id) in links && tr.name == tags[tr.id].name
      ensures tr in r.tags
    {
      assert LoadedTag(Some(tr.id), tr.name) in LoadedTags(tags, links, task.id);
    }
  }

  /** `list`: the user's tasks in ascending position, each with its tags. */
  function List(db: Db, user: int): (r: seq<TaskRead>)
    reads db
    ensures |r| == |Listing(db.tasks, user)|
    ensures forall i :: 0 <= i < |r| ==> r[i] == Read(db.tags, db.links, Listing(db.tasks, user)[i])
    ensures forall i, j :: 0 <= i < j < |r| ==> r[i].position <= r[j].position
    ensures forall i :: 0 <= i < |r| ==> exists t :: t in db.tasks && t.userId == user && t.id == r[i].id
  {
    var order := Listing(db.tasks, user);
    var tags, links := db.tags, db.links;
    seq(|order|, i requires 0 <= i < |order| => Read(tags, links, order[i]))
  }

  /** A task the user does not know yet has no link: every link names an existing task. */
  lemma FreshTaskHasNoTags(db: Db, t: Task)
    requires db.Valid() && t.id >= db.nextTaskId
    ensures Read(db.tags, db.links, t).tags == {}
  {
    assert forall i :: 0 <= i < |db.tasks| ==> db.tasks[i].id != t.id;
    assert forall k :: k in db.tags ==> (t.id, k) !in db.links;
    assert LoadedTags(db.tags, db.links, t.id) == {};
  }

  /**
   * `create`: a new task of the user at `(max(position) or 0.0) + 1.0`, not
   * completed, with no tags.
   */
  method Create(db: Db, user: int, title: string, description: string) returns (r: TaskRead)
    requires db.Valid()
    modifies db
    ensures db.Valid()
    ensures var t := Task(r.id, title, description, NewPosition(MaxPosition(UserRows(old(db.tasks), user))), false, user);
            && db.tasks == old(db.tasks) + [t]
            && r == ToRead(t, {})
    ensures forall j :: 0 <= j < |old(db.tasks)| ==> old(db.tasks)[j].id != r.id
    ensures db.tags == old(db.tags) && db.links == old(db.links) && db.nextTagId == old(db.nextTagId)
  {
    var maxPosition := MaxPosition(UserRows(db.tasks, user));
    var t := Task(db.nextTaskId, title, description, NewPosition(maxPosition), false, user);
    FreshTaskHasNoTags(db, t);
    HasTaskAfterAppend(db.tasks, t);
    db.tasks := db.tasks + [t];
    db.nextTaskId := db.nextTaskId + 1;
    r := Read(db.tags, db.links, t);
    assert LoadedTags(db.tags, db.links, t.id) == {};
  }

  /** An owner-preserving rewrite of row `i` keeps the store valid. */
  lemma RewriteKeepsValid(db: Db, i: nat, t: Task)
    requires db.Valid() && i < |db.tasks| && t.id == db.tasks[i].id && t.userId == db.tasks[i].userId
    ensures var rows := db.tasks[i := t];
            && DistinctIds(rows) && (forall j :: 0 <= j < |rows| ==> rows[j].id < db.nextTaskId)
            && (forall l :: l in db.links ==> l.1 in db.tags && HasTask(rows, l.0, db.tags[l.1].userId))
  {
    HasTaskAfterRewrite(db.tasks, i, t);
    var rows := db.tasks[i := t];
    assert forall j :: 0 <= j < |rows| ==> rows[j].id == db.tasks[j].id;
  }

  /** `update`: `None` for a task the user does not own; otherwise only the supplied fields change. */
  method Update(db: Db, taskId: int, user: int, u: TaskUpdate) returns (r: Option<TaskRead>)
    requires db.Valid()
    modifies db
    ensures db.Valid()
    ensures r.Some? <==> old(FindOwned(db.tasks, taskId, user)).Some?
    ensures r.None? ==> unchanged(db)
    ensures r.Some? ==>
              && var i := old(FindOwned(db.tasks, taskId, user)).value;
              && db.tasks == old(db.tasks)[i := ApplyUpdate(old(db.tasks)[i], u)]
              && r.value == Read(db.tags, db.links, db.tasks[i])
    ensures db.tags == old(db.tags) && db.links == old(db.links)
    ensures db.nextTaskId == old(db.nextTaskId) && db.nextTagId == old(db.nextTagId)
  {
    var found := FindOwned(db.tasks, taskId, user);
    if found.None? {
      return None;
    }
    var i := found.value;
    var t := ApplyUpdate(db.tasks[i], u);
    RewriteKeepsValid(db, i, t);
    db.tasks := db.tasks[i := t];
    r := Some(Read(db.tags, db.links, t));
  }

  /** `toggle_complete`: `None` for a task the user does not own; otherwise `completed` is negated. */
  method ToggleComplete(db: Db, taskId: int, user: int) returns (r: Option<TaskRead>)
    requires db.Valid()
    modifies db
    ensures db.Valid()
    ensures r.Some? <==> old(FindOwned(db.tasks, taskId, user)).Some?
    ensures r.None? ==> unchanged(db)
    ensures r.Some? ==>
              && var i := old(FindOwned(db.tasks, taskId, user)).value;
              && db.tasks == old(db.tasks)[i := old(db.tasks)[i].(completed := !old(db.tasks)[i].completed)]
              && r.value == Read(db.tags, db.links, db.tasks[i])
    ensures db.tags == old(db.tags) && db.links == old(db.links)
    ensures db.nextTaskId == old(db.nextTaskId) && db.nextTagId == old(db.nextTagId)
  {
    var found := FindOwned(db.tasks, taskId, user);
    if found.None? {
      return None;
    }
    var i := found.value;
    var t := db.tasks[i].(completed := !db.tasks[i].completed);
    RewriteKeepsValid(db, i, t);
    db.tasks := db.tasks[i := t];
    r := Some(Read(db.tags, db.links, t));
  }

  /** Toggling the same row twice restores the table. */
  lemma ToggleTwiceRestores(rows: seq<Task>, i: nat)
    requires i < |rows|
    ensures var once := rows[i := rows[i].(completed := !rows[i].completed)];
            once[i := once[i].(completed := !once[i].completed)] == rows
  {
  }

  /**
   * `delete`: `None` for a task the user does not own; otherwise the row and
   * its links go, and the task is returned as it was read before the delete.
   */
  method Delete(db: Db, taskId: int, user: int) returns (r: Option<TaskRead>)
    requires db.Valid()
    modifies db
    ensures db.Valid()
    ensures r.Some? <==> old(FindOwned(db.tasks, taskId, user)).Some?
    ensures r.None? ==> unchanged(db)
    ensures r.Some? ==>
              && var i := old(FindOwned(db.tasks, taskId, user)).value;
              && db.tasks == RemoveAt(old(db.tasks), i)
              && db.links == UnlinkTask(old(db.links), taskId)
              && r.value == Read(old(db.tags), old(db.links), old(db.tasks)[i])
    ensures db.tags == old(db.tags)
    ensures db.nextTaskId == old(db.nextTaskId) && db.nextTagId == old(db.nextTagId)
  {
    var found := FindOwned(db.tasks, taskId, user);
    if found.None? {
      return None;
    }
    var i := found.value;
    r := Some(Read(db.tags, db.links, db.tasks[i]));
    HasTaskAfterRemove(db.tasks, i);
    ghost var rows := db.tasks;
    db.tasks := RemoveAt(db.tasks, i);
    db.links := UnlinkTask(db.links, taskId);
    forall a, b | 0 <= a < |db.tasks| && 0 <= b < |db.tasks| && db.tasks[a].id == db.tasks[b].id
      ensures a == b
    {
      var a0 := if a < i then a else a + 1;
      var b0 := if b < i then b else b + 1;
      assert db.tasks[a] == rows[a0] && db.tasks[b] == rows[b0];
    }
  }

  /**
   * `move_task`: `None` for a task the user does not own or an `after_id`
   * not among the user's tasks, with nothing written; otherwise the task's
   * position becomes `MovePosition` of the user's listing and nothing else
   * changes.
   */
  method MoveTask(db: Db, taskId: int, user: int, afterId: Option<int>) returns (r: Option<TaskRead>)
    requires db.Valid()
    modifies db
    ensures db.Valid()
    ensures r.Some? <==> old(FindOwned(db.tasks, taskId, user)).Some?
                         && MovePosition(Listing(old(db.tasks), user), afterId).Some?
    ensures r.None? ==> unchanged(db)
    ensures r.Some? ==>
              && var i := old(FindOwned(db.tasks, taskId, user)).value;
              && db.tasks == SetPosition(old(db.tasks), i, MovePosition(Listing(old(db.tasks), user), afterId).value)
              && r.value == Read(db.tags, db.links, db.tasks[i])
    ensures db.tags == old(db.tags) && db.links == old(db.links)
    ensures db.nextTaskId == old(db.nextTaskId) && db.nextTagId == old(db.nextTagId)
  {
    var found := FindOwned(db.tasks, taskId, user);
    if found.None? {
      return None;
    }
    var i := found.value;
    var position := ComputeMovePosition(Listing(db.tasks, user), afterId);
    if position.None? {
      return None;
    }
    var t := db.tasks[i].(position := position.value);
    RewriteKeepsValid(db, i, t);
    db.tasks := db.tasks[i := t];
    r := Some(Read(db.tags, db.links, t));
  }
}
