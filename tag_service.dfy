/**
 * The tag service (app/tags/service.py): per-user tags with unique names,
 * linked to tasks through the `task_tags` join table. Renaming a tag onto the
 * name of another of the user's tags merges the two.
 */
module TagService {
  import opened Common
  import opened Records
  import opened Store

  /** `select(Tag).where(Tag.id == tag_id, Tag.user_id == user.id).first()` finds a row. */
  predicate OwnsTag(tags: map<int, Tag>, tagId: int, user: int) {
    tagId in tags && tags[tagId].userId == user
  }

  // ---------------------------------------------------------------------------
  // Merging one tag into another

  /**
   * The join table once tag `o` is merged into tag `n`: the links of `o` are
   * gone and each of its tasks is linked to `n`.
   */
  function MergedLinks(links: set<Link>, o: int, n: int): set<Link> {
    (set l | l in links && l.1 != o) + (set t | t in TasksOf(links, o) :: (t, n))
  }

  /** The join table while `_merge_tags` still has the links of the tasks in `pending` to re-point. */
  function PartialMerge(links: set<Link>, o: int, n: int, pending: set<int>): set<Link> {
    (set l | l in links && (l.1 != o || l.0 in pending))
      + (set t | t in TasksOf(links, o) && t !in pending :: (t, n))
  }

  lemma PartialMergeStart(links: set<Link>, o: int, n: int)
    ensures PartialMerge(links, o, n, TasksOf(links, o)) == links
  {
    var p := PartialMerge(links, o, n, TasksOf(links, o));
    forall l | l in links ensures l in p {
      if l.1 == o {
        assert l.0 in TasksOf(links, o);
      }
    }
  }

  lemma PartialMergeEnd(links: set<Link>, o: int, n: int)
    ensures PartialMerge(links, o, n, {}) == MergedLinks(links, o, n)
  {
  }

  /** One pass of the loop: link the task to `n` unless it already is, then drop its link to `o`. */
  lemma PartialMergeStep(links: set<Link>, o: int, n: int, pending: set<int>, t: int)
    requires o != n && t in pending && pending <= TasksOf(links, o)
    ensures PartialMerge(links, o, n, pending - {t})
         == PartialMerge(links, o, n, pending) + {(t, n)} - {(t, o)}
  {
    var a := PartialMerge(links, o, n, pending - {t});
    var b := PartialMerge(links, o, n, pending) + {(t, n)} - {(t, o)};
    forall l | l in a ensures l in b {
    }
    forall l | l in b ensures l in a {
      if l == (t, n) {
        assert t in TasksOf(links, o);
      }
    }
  }

  /**
   * After a merge the surviving tag is linked to the tasks of both tags, the
   * merged tag to none, and every other tag to the same tasks as before.
   */
  lemma MergeUnitesTaskSets(links: set<Link>, o: int, n: int)
    requires o != n
    ensures TasksOf(MergedLinks(links, o, n), n) == TasksOf(links, n) + TasksOf(links, o)
    ensures TasksOf(MergedLinks(links, o, n), o) == {}
    ensures forall g :: g != o && g != n ==> TasksOf(MergedLinks(links, o, n), g) == TasksOf(links, g)
  {
    var m := MergedLinks(links, o, n);
    forall t | t in TasksOf(links, o) ensures t in TasksOf(m, n) {
      assert (t, n) in m;
    }
    forall t | t in TasksOf(links, n) ensures t in TasksOf(m, n) {
      assert (t, n) in links;
    }
    forall g | g != o && g != n ensures TasksOf(m, g) == TasksOf(links, g) {
      forall t | t in TasksOf(links, g) ensures t in TasksOf(m, g) {
        assert (t, g) in links;
      }
    }
  }

  /** A merge leaves the links of every tag other than the two alone. */
  lemma MergeKeepsOtherLinks(links: set<Link>, o: int, n: int)
    ensures forall l: Link :: l.1 != o && l.1 != n ==> (l in MergedLinks(links, o, n) <==> l in links)
  {
  }

  /**
   * `_merge_tags`: for each link of `old_tag`, add a link of its task to
   * `new_tag` unless one exists, delete the old link; then delete `old_tag`.
   */
  method MergeTags(db: Db, o: int, n: int)
    requires db.Valid()
    requires o in db.tags && n in db.tags && o != n && db.tags[o].userId == db.tags[n].userId
    modifies db
    ensures db.Valid()
    ensures db.tags == old(db.tags) - {o}
    ensures db.links == MergedLinks(old(db.links), o, n)
    ensures db.tasks == old(db.tasks)
    ensures db.nextTaskId == old(db.nextTaskId) && db.nextTagId == old(db.nextTagId)
  {
    ghost var links0 := db.links;
    var pending := TasksOf(db.links, o);
    PartialMergeStart(links0, o, n);
    while pending != {}
      invariant pending <= TasksOf(links0, o)
      invariant db.links == PartialMerge(links0, o, n, pending)
      invariant db.tags == old(db.tags) && db.tasks == old(db.tasks)
      invariant db.nextTaskId == old(db.nextTaskId) && db.nextTagId == old(db.nextTagId)
      decreases |pending|
    {
      var t :| t in pending;
      PartialMergeStep(links0, o, n, pending, t);
      if (t, n) !in db.links {
        db.links := db.links + {(t, n)};
      }
      db.links := db.links - {(t, o)};
      pending := pending - {t};
    }
    PartialMergeEnd(links0, o, n);
    db.tags := db.tags - {o};
    forall l | l in db.links
      ensures l.1 in db.tags && HasTask(db.tasks, l.0, db.tags[l.1].userId)
    {
      if l !in links0 {
        assert l.1 == n && l.0 in TasksOf(links0, o);
        var w :| w in links0 && w.1 == o && w.0 == l.0;
        assert HasTask(db.tasks, w.0, old(db.tags)[o].userId);
      }
    }
  }

  // ---------------------------------------------------------------------------
  // The service operations

  /** `create`: the user's tag of that name, made when there is none. */
  method Create(db: Db, user: int, name: string) returns (tagId: int)
    requires db.Valid()
    modifies db
    ensures db.Valid()
    ensures tagId in db.tags && db.tags[tagId] == Tag(name, user)
    ensures old(FindTag(db.tags, user, name)).Some? ==>
              tagId == old(FindTag(db.tags, user, name)).value && db.tags == old(db.tags)
    ensures old(FindTag(db.tags, user, name)).None? ==>
              tagId !in old(db.tags) && db.tags == old(db.tags)[tagId := Tag(name, user)]
    ensures db.tasks == old(db.tasks) && db.links == old(db.links) && db.nextTaskId == old(db.nextTaskId)
  {
    var existing := FindTag(db.tags, user, name);
    if existing.Some? {
      return existing.value;
    }
    tagId := db.nextTagId;
    db.tags := db.tags[tagId := Tag(name, user)];
    db.nextTagId := db.nextTagId + 1;
  }

  /**
   * `rename`: `None` for a tag the user does not own; a merge into the
   * user's other tag of the new name when there is one, returning that tag;
   * otherwise the name is changed in place and the id kept.
   */
  method Rename(db: Db, tagId: int, user: int, newName: string) returns (r: Option<int>)
    requires db.Valid()
    modifies db
    ensures db.Valid()
    ensures !old(OwnsTag(db.tags, tagId, user)) ==> r.None? && unchanged(db)
    ensures old(OwnsTag(db.tags, tagId, user)) && old(FindOtherTag(db.tags, user, newName, tagId)).None? ==>
              && r == Some(tagId)
              && db.tags == old(db.tags)[tagId := Tag(newName, user)]
              && db.links == old(db.links) && db.tasks == old(db.tasks)
    ensures old(OwnsTag(db.tags, tagId, user)) && old(FindOtherTag(db.tags, user, newName, tagId)).Some? ==>
              && var e := old(FindOtherTag(db.tags, user, newName, tagId)).value;
              && r == Some(e) && e in db.tags && db.tags[e] == Tag(newName, user)
              && db.tags == old(db.tags) - {tagId}
              && db.links == MergedLinks(old(db.links), tagId, e)
              && db.tasks == old(db.tasks)
    ensures db.nextTaskId == old(db.nextTaskId) && db.nextTagId == old(db.nextTagId)
  {
    if !OwnsTag(db.tags, tagId, user) {
      return None;
    }
    var existing := FindOtherTag(db.tags, user, newName, tagId);
    if existing.Some? {
      MergeTags(db, tagId, existing.value);
      return existing;
    }
    db.tags := db.tags[tagId := Tag(newName, user)];
    r := Some(tagId);
  }

  /** `delete`: `false` for a tag the user does not own; otherwise the tag and its links go. */
  method Delete(db: Db, tagId: int, user: int) returns (deleted: bool)
    requires db.Valid()
    modifies db
    ensures db.Valid()
    ensures deleted == old(OwnsTag(db.tags, tagId, user))
    ensures !deleted ==> unchanged(db)
    ensures deleted ==> db.tags == old(db.tags) - {tagId} && db.links == UnlinkTag(old(db.links), tagId)
    ensures db.tasks == old(db.tasks)
    ensures db.nextTaskId == old(db.nextTaskId) && db.nextTagId == old(db.nextTagId)
  {
    if !OwnsTag(db.tags, tagId, user) {
      return false;
    }
    db.tags := db.tags - {tagId};
    db.links := UnlinkTag(db.links, tagId);
    deleted := true;
  }

  /**
   * `add_tag_to_task`: `None` unless both the task and the tag are the
   * user's; otherwise the tag, with the link present afterwards.
   */
  method AddTagToTask(db: Db, taskId: int, tagId: int, user: int) returns (r: Option<int>)
    requires db.Valid()
    modifies db
    ensures db.Valid()
    ensures r.Some? <==> old(FindOwned(db.tasks, taskId, user)).Some? && old(OwnsTag(db.tags, tagId, user))
    ensures r.None? ==> unchanged(db)
    ensures r.Some? ==> r.value == tagId && db.links == old(db.links) + {(taskId, tagId)}
    ensures db.tasks == old(db.tasks) && db.tags == old(db.tags)
    ensures db.nextTaskId == old(db.nextTaskId) && db.nextTagId == old(db.nextTagId)
  {
    var task := FindOwned(db.tasks, taskId, user);
    if task.None? {
      return None;
    }
    if !OwnsTag(db.tags, tagId, user) {
      return None;
    }
    if (taskId, tagId) in db.links {
      return Some(tagId);
    }
    db.links := db.links + {(taskId, tagId)};
    r := Some(tagId);
  }

  /**
   * `remove_tag_from_task`: `false` unless both the task and the tag are the
   * user's; otherwise `true`, with the link absent afterwards.
   */
  method RemoveTagFromTask(db: Db, taskId: int, tagId: int, user: int) returns (ok: bool)
    requires db.Valid()
    modifies db
    ensures db.Valid()
    ensures ok <==> old(FindOwned(db.tasks, taskId, user)).Some? && old(OwnsTag(db.tags, tagId, user))
    ensures !ok ==> unchanged(db)
    ensures ok ==> db.links == old(db.links) - {(taskId, tagId)}
    ensures db.tasks == old(db.tasks) && db.tags == old(db.tags)
    ensures db.nextTaskId == old(db.nextTaskId) && db.nextTagId == old(db.nextTagId)
  {
    var task := FindOwned(db.tasks, taskId, user);
    if task.None? {
      return false;
    }
    if !OwnsTag(db.tags, tagId, user) {
      return false;
    }
    if (taskId, tagId) in db.links {
      db.links := db.links - {(taskId, tagId)};
    }
    ok := true;
  }

  /**
   * `create_and_add_to_task`: `None` for a task the user does not own;
   * otherwise the user's tag of that name (made if missing), linked to the task.
   */
  method CreateAndAddToTask(db: Db, taskId: int, user: int, name: string) returns (r: Option<int>)
    requires db.Valid()
    modifies db
    ensures db.Valid()
    ensures r.Some? <==> old(FindOwned(db.tasks, taskId, user)).Some?
    ensures r.None? ==> unchanged(db)
    ensures r.Some? ==>
              && r.value in db.tags && db.tags[r.value] == Tag(name, user)
              && db.links == old(db.links) + {(taskId, r.value)}
              && (old(FindTag(db.tags, user, name)).Some? ==>
                    r.value == old(FindTag(db.tags, user, name)).value && db.tags == old(db.tags))
              && (old(FindTag(db.tags, user, name)).None? ==>
                    r.value !in old(db.tags) && db.tags == old(db.tags)[r.value := Tag(name, user)])
    ensures db.tasks == old(db.tasks) && db.nextTaskId == old(db.nextTaskId)
  {
    var task := FindOwned(db.tasks, taskId, user);
    if task.None? {
      return None;
    }
    var tagId := Create(db, user, name);
    var _ := AddTagToTask(db, taskId, tagId, user);
    r := Some(tagId);
  }

  /** Renaming a tag to its own name finds no other tag and writes back the row it read. */
  lemma RenameToOwnNameIsNoOp(tags: map<int, Tag>, tagId: int, user: int)
    requires UniqueTagNames(tags) && OwnsTag(tags, tagId, user)
    ensures FindOtherTag(tags, user, tags[tagId].name, tagId).None?
    ensures tags[tagId := Tag(tags[tagId].name, user)] == tags
  {
  }
}
