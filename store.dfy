/**
 * The server's relational store as the tag and task services see it: the
 * `tasks` rows in table order, the `tags` table keyed by id, and the
 * `task_tags` join table, whose primary key `(task_id, tag_id)` makes it a set
 * of pairs.
 */
module Store {
  import opened Common
  import opened Records
  import opened Ordering

  /** A row of `task_tags`: `(task_id, tag_id)`. */
  type Link = (int, int)

  /** Some row has this id and belongs to this user. */
  predicate HasTask(rows: seq<Task>, id: int, user: int) {
    exists i :: 0 <= i < |rows| && rows[i].id == id && rows[i].userId == user
  }

  /**
   * `select(Task).where(Task.id == id, Task.user_id == user).first()`: the
   * index of the first row with this id and owner.
   */
  function FindOwned(rows: seq<Task>, id: int, user: int): (r: Option<nat>)
    ensures r.Some? ==> r.value < |rows| && rows[r.value].id == id && rows[r.value].userId == user
    ensures r.Some? <==> HasTask(rows, id, user)
  {
    if |rows| == 0 then None
    else if rows[0].id == id && rows[0].userId == user then Some(0)
    else
      match FindOwned(rows[1..], id, user)
      case None =>
        assert forall i :: 0 < i < |rows| ==> rows[i] == rows[1..][i - 1];
        None
      case Some(k) => Some(k + 1)
  }

  /** No user has two tags of the same name. */
  predicate UniqueTagNames(tags: map<int, Tag>) {
    forall a, b :: a in tags && b in tags && tags[a] == tags[b] ==> a == b
  }

  /** `select(Tag).where(Tag.user_id == user, Tag.name == name).first()`. */
  function FindTag(tags: map<int, Tag>, user: int, name: string): (r: Option<int>)
    requires UniqueTagNames(tags)
    ensures r.Some? ==> r.value in tags && tags[r.value] == Tag(name, user)
    ensures r.None? ==> forall k :: k in tags ==> tags[k] != Tag(name, user)
  {
    if exists k :: k in tags && tags[k] == Tag(name, user) then
      var k :| k in tags && tags[k] == Tag(name, user); Some(k)
    else None
  }

  /** The same query with `Tag.id != except` added. */
  function FindOtherTag(tags: map<int, Tag>, user: int, name: string, except: int): (r: Option<int>)
    requires UniqueTagNames(tags)
    ensures r.Some? ==> r.value in tags && r.value != except && tags[r.value] == Tag(name, user)
    ensures r.None? ==> forall k :: k in tags && k != except ==> tags[k] != Tag(name, user)
  {
    if exists k :: k in tags && k != except && tags[k] == Tag(name, user) then
      var k :| k in tags && k != except && tags[k] == Tag(name, user); Some(k)
    else None
  }

  /** The tasks linked to a tag. */
  function TasksOf(links: set<Link>, tagId: int): set<int> {
    set l | l in links && l.1 == tagId :: l.0
  }

  /** The tags linked to a task. */
  function TagsOf(links: set<Link>, taskId: int): set<int> {
    set l | l in links && l.0 == taskId :: l.1
  }

  /** The join table without the rows of one tag. */
  function UnlinkTag(links: set<Link>, tagId: int): (r: set<Link>)
    ensures forall l :: l in r <==> l in links && l.1 != tagId
  {
    set l | l in links && l.1 != tagId
  }

  /** The join table without the rows of one task. */
  function UnlinkTask(links: set<Link>, taskId: int): (r: set<Link>)
    ensures forall l :: l in r <==> l in links && l.0 != taskId
  {
    set l | l in links && l.0 != taskId
  }

  /** Rewriting a row without touching its id or owner keeps every `(id, owner)` pair there is. */
  lemma HasTaskAfterRewrite(rows: seq<Task>, i: nat, t: Task)
    requires i < |rows| && t.id == rows[i].id && t.userId == rows[i].userId
    ensures forall id, user :: HasTask(rows, id, user) ==> HasTask(rows[i := t], id, user)
  {
    forall id, user | HasTask(rows, id, user) ensures HasTask(rows[i := t], id, user) {
      var j :| 0 <= j < |rows| && rows[j].id == id && rows[j].userId == user;
      assert rows[i := t][j].id == id && rows[i := t][j].userId == user;
    }
  }

  /** Appending a row keeps every `(id, owner)` pair there is. */
  lemma HasTaskAfterAppend(rows: seq<Task>, t: Task)
    ensures forall id, user :: HasTask(rows, id, user) ==> HasTask(rows + [t], id, user)
  {
    forall id, user | HasTask(rows, id, user) ensures HasTask(rows + [t], id, user) {
      var j :| 0 <= j < |rows| && rows[j].id == id && rows[j].userId == user;
      assert (rows + [t])[j] == rows[j];
    }
  }

  /** Deleting a row keeps the `(id, owner)` pairs of every other id. */
  lemma HasTaskAfterRemove(rows: seq<Task>, i: nat)
    requires i < |rows|
    ensures forall id, user :: HasTask(rows, id, user) && id != rows[i].id ==> HasTask(RemoveAt(rows, i), id, user)
  {
    var r := RemoveAt(rows, i);
    forall id, user | HasTask(rows, id, user) && id != rows[i].id ensures HasTask(r, id, user) {
      var j :| 0 <= j < |rows| && rows[j].id == id && rows[j].userId == user;
      if j < i {
        assert r[j] == rows[j];
      } else {
        assert j > i && r[j - 1] == rows[j];
      }
    }
  }

  /**
   * The store. `Valid` holds what the schema and the services keep true: ids
   * are keys and below the next id to hand out, a user's tag names are
   * unique, and every link joins an existing tag to an existing task of the
   * tag's owner.
   */
  class Db {
    var tasks: seq<Task>
    var tags: map<int, Tag>
    var links: set<Link>
    var nextTaskId: int
    var nextTagId: int

    ghost predicate Valid()
      reads this
    {
      && DistinctIds(tasks)
      && (forall i :: 0 <= i < |tasks| ==> tasks[i].id < nextTaskId)
      && (forall k :: k in tags ==> k < nextTagId)
      && UniqueTagNames(tags)
      && (forall l :: l in links ==> l.1 in tags && HasTask(tasks, l.0, tags[l.1].userId))
    }

    constructor ()
      ensures Valid()
      ensures tasks == [] && tags == map[] && links == {}
    {
      tasks := [];
      tags := map[];
      links := {};
      nextTaskId := 1;
      nextTagId := 1;
    }
  }
}
