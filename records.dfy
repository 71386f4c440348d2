/**
 * The rows and response records the services exchange: users, tasks with a
 * fractional position key, tags, and the read models the API returns.
 */
module Records {
  import opened Common

  /** A row of the `users` table. */
  datatype User = User(id: int, username: string, passwordHash: string)

  /** A row of the `tasks` table: each task belongs to one user. */
  datatype Task = Task(
    id: int,
    title: string,
    description: string,
    position: real,
    completed: bool,
    userId: int)

  /** A row of the `tags` table, without its key. */
  datatype Tag = Tag(name: string, userId: int)

  datatype TagRead = TagRead(id: int, name: string)

  /** The task as the API returns it, with the tags linked to it. */
  datatype TaskRead = TaskRead(
    id: int,
    title: string,
    description: string,
    position: real,
    completed: bool,
    tags: set<TagRead>)

  /**
   * A `TaskUpdate` payload after `model_dump(exclude_unset=True)`: a field is
   * `Some` exactly when the client sent it.
   */
  datatype TaskUpdate = TaskUpdate(title: Option<string>, description: Option<string>)

  /** The `setattr` loop over the supplied fields: only those fields change. */
  function ApplyUpdate(t: Task, u: TaskUpdate): (r: Task)
    ensures r.id == t.id && r.userId == t.userId
    ensures r.position == t.position && r.completed == t.completed
    ensures r.title == (if u.title.Some? then u.title.value else t.title)
    ensures r.description == (if u.description.Some? then u.description.value else t.description)
  {
    var t1 := if u.title.Some? then t.(title := u.title.value) else t;
    if u.description.Some? then t1.(description := u.description.value) else t1
  }
}
