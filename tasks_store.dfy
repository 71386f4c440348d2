/**
 * The client's task store (web/src/lib/stores/tasks.svelte.ts): the state
 * the page renders from, the filtered and sorted view of it, the tag changes
 * an edit sends, the optimistic completion toggle and the drag-and-drop
 * bookkeeping. Network calls are outside the model: their outcome is a
 * parameter.
 */
module ClientTasks {
  import opened Common

  datatype TagRef = TagRef(id: int, name: string)

  /** A `TaskRead` as the client holds it. */
  datatype ClientTask = ClientTask(id: int, title: string, description: string, position: real, completed: bool, tags: seq<TagRef>)

  datatype SortOption = Manual | DateDesc | DateAsc | AlphaAsc | AlphaDesc

  const ToggleFailed: string := "Failed to toggle task"

  /** `a` is `b` with some elements left out, the rest in their order. */
  predicate Subsequence<T(==)>(a: seq<T>, b: seq<T>)
    decreases |b|
  {
    |a| == 0 || (|b| > 0 && ((a[0] == b[0] && Subsequence(a[1..], b[1..])) || Subsequence(a, b[1..])))
  }

  // ---------------------------------------------------------------------------
  // `getSortedTasks`

  /** `result.filter((task) => task.completed === completed)`. */
  function WithCompletion(ts: seq<ClientTask>, completed: bool): (r: seq<ClientTask>)
    ensures forall t :: t in r <==> t in ts && t.completed == completed
    ensures |r| <= |ts|
  {
    if |ts| == 0 then []
    else if ts[0].completed == completed then [ts[0]] + WithCompletion(ts[1..], completed)
    else WithCompletion(ts[1..], completed)
  }

  /** The filter keeps the stored order. */
  lemma {:induction false} WithCompletionIsSubsequence(ts: seq<ClientTask>, completed: bool)
    ensures Subsequence(WithCompletion(ts, completed), ts)
  {
    if |ts| > 0 {
      WithCompletionIsSubsequence(ts[1..], completed);
      var r := WithCompletion(ts, completed);
      if ts[0].completed == completed {
        assert r[0] == ts[0] && r[1..] == WithCompletion(ts[1..], completed);
      }
    }
  }

  /** Puts `t` before the first task it compares below, so equal tasks keep their order. */
  function InsertBy(s: seq<ClientTask>, t: ClientTask, compare: (ClientTask, ClientTask) -> int): (r: seq<ClientTask>)
    ensures multiset(r) == multiset(s) + multiset{t}
  {
    if |s| == 0 then [t]
    else if compare(t, s[0]) < 0 then [t] + s
    else
      assert s == [s[0]] + s[1..];
      [s[0]] + InsertBy(s[1..], t, compare)
  }

  /** `result.sort(compare)`, as a stable insertion sort. */
  function SortBy(s: seq<ClientTask>, compare: (ClientTask, ClientTask) -> int): (r: seq<ClientTask>)
    ensures multiset(r) == multiset(s)
  {
    if |s| == 0 then []
    else
      assert s == s[..|s| - 1] + [s[|s| - 1]];
      InsertBy(SortBy(s[..|s| - 1], compare), s[|s| - 1], compare)
  }

  /**
   * The view: the tasks whose `completed` equals `showCompleted`, in stored
   * order unless an alphabetical option sorts them by `titleCompare`
   * (`localeCompare`, which is a parameter here).
   */
  function SortedView(ts: seq<ClientTask>, showCompleted: bool, sortBy: SortOption, titleCompare: (string, string) -> int): (r: seq<ClientTask>)
    ensures forall t :: t in r <==> t in ts && t.completed == showCompleted
    ensures multiset(r) == multiset(WithCompletion(ts, showCompleted))
    ensures sortBy !in {AlphaAsc, AlphaDesc} ==> Subsequence(r, ts) && r == WithCompletion(ts, showCompleted)
  {
    var result := WithCompletion(ts, showCompleted);
    WithCompletionIsSubsequence(ts, showCompleted);
    var r := match sortBy
      case AlphaAsc => SortBy(result, (a: ClientTask, b: ClientTask) => titleCompare(a.title, b.title))
      case AlphaDesc => SortBy(result, (a: ClientTask, b: ClientTask) => titleCompare(b.title, a.title))
      case _ => result;
    assert forall t :: t in r <==> t in multiset(r);
    r
  }

  // ---------------------------------------------------------------------------
  // The tag changes of `updateTask`

  /** `findIndex((t) => t.id === taskId)`, `None` for -1. */
  function FindIndex(ts: seq<ClientTask>, taskId: int): (r: Option<nat>)
    ensures r.Some? ==> r.value < |ts| && ts[r.value].id == taskId
                        && forall j :: 0 <= j < r.value ==> ts[j].id != taskId
    ensures r.None? ==> forall j :: 0 <= j < |ts| ==> ts[j].id != taskId
  {
    if |ts| == 0 then None
    else if ts[0].id == taskId then Some(0)
    else
      match FindIndex(ts[1..], taskId)
      case None =>
        assert forall j :: 0 < j < |ts| ==> ts[j] == ts[1..][j - 1];
        None
      case Some(k) =>
        assert forall j :: 0 < j <= k ==> ts[j] == ts[1..][j - 1];
        Some(k + 1)
  }

  function TagIds(tags: seq<TagRef>): (r: seq<int>)
    ensures |r| == |tags| && forall i :: 0 <= i < |tags| ==> r[i] == tags[i].id
  {
    seq(|tags|, i requires 0 <= i < |tags| => tags[i].id)
  }

  /** `tasks.find((t) => t.id === taskId)?.tags.map((t) => t.id) || []`: the first such task's tag ids. */
  function CurrentTagIds(ts: seq<ClientTask>, taskId: int): seq<int> {
    match FindIndex(ts, taskId)
    case Some(i) => TagIds(ts[i].tags)
    case None => []
  }

  /** `xs.filter((id) => !ys.includes(id))`. */
  function Exclude(xs: seq<int>, ys: seq<int>): (r: seq<int>)
    ensures forall x :: x in r <==> x in xs && x !in ys
  {
    if |xs| == 0 then []
    else if xs[0] !in ys then [xs[0]] + Exclude(xs[1..], ys)
    else Exclude(xs[1..], ys)
  }

  /** The tags an edit unlinks: the task's current tags no longer selected. */
  function TagsToRemove(ts: seq<ClientTask>, taskId: int, selected: seq<int>): seq<int> {
    Exclude(CurrentTagIds(ts, taskId), selected)
  }

  /** The tags an edit links: the selected tags the task does not have yet. */
  function TagsToAdd(ts: seq<ClientTask>, taskId: int, selected: seq<int>): seq<int> {
    Exclude(selected, CurrentTagIds(ts, taskId))
  }

  /**
   * The two request lists take the task from its current tags to exactly the
   * selected ones: nothing selected is removed, nothing current is added
   * again, and current minus removed plus added is the selection.
   */
  lemma TagDiffReachesSelection(ts: seq<ClientTask>, taskId: int, selected: seq<int>)
    ensures var current := set x | x in CurrentTagIds(ts, taskId);
            var remove := set x | x in TagsToRemove(ts, taskId, selected);
            var add := set x | x in TagsToAdd(ts, taskId, selected);
            var chosen := set x | x in selected;
            && remove * chosen == {}
            && add * current == {}
            && (current - remove) + add == chosen
  {
  }

  // ---------------------------------------------------------------------------
  // The store

  /** The task at `i` with `completed` negated. */
  function FlipAt(ts: seq<ClientTask>, i: nat): (r: seq<ClientTask>)
    requires i < |ts|
    ensures |r| == |ts| && r[i].completed == !ts[i].completed
    ensures r[i] == ts[i].(completed := r[i].completed)
    ensures forall j :: 0 <= j < |ts| && j != i ==> r[j] == ts[j]
  {
    ts[i := ts[i].(completed := !ts[i].completed)]
  }

  /** Flipping twice restores the list. */
  lemma FlipTwice(ts: seq<ClientTask>, i: nat)
    requires i < |ts|
    ensures FlipAt(FlipAt(ts, i), i) == ts
  {
    assert forall j :: 0 <= j < |ts| ==> FlipAt(FlipAt(ts, i), i)[j] == ts[j];
  }

  /** A JavaScript `number | null` in a condition: `null` and `0` are falsy. */
  predicate Truthy(x: Option<int>) {
    x.Some? && x.value != 0
  }

  class TasksStore {
    var tasks: seq<ClientTask>
    var isLoading: bool
    var error: Option<string>
    var draggedTaskId: Option<int>
    var dragOverTaskId: Option<int>
    var showCompleted: bool
    var sortBy: SortOption

    constructor ()
      ensures tasks == [] && !isLoading && error.None?
      ensures draggedTaskId.None? && dragOverTaskId.None?
      ensures !showCompleted && sortBy == Manual
    {
      tasks := [];
      isLoading := false;
      error := None;
      draggedTaskId := None;
      dragOverTaskId := None;
      showCompleted := false;
      sortBy := Manual;
    }

    /** `getSortedTasks`: reads the state and changes none of it. */
    function GetSortedTasks(titleCompare: (string, string) -> int): (r: seq<ClientTask>)
      reads this
      ensures forall t :: t in r <==> t in tasks && t.completed == showCompleted
      ensures sortBy !in {AlphaAsc, AlphaDesc} ==> Subsequence(r, tasks)
    {
      SortedView(tasks, showCompleted, sortBy, titleCompare)
    }

    /**
     * `toggleTask`: negate the task's `completed` at once; when the request
     * fails, negate it back and set the error. An unknown id leaves the
     * list alone.
     */
    method ToggleTask(taskId: int, requestFailed: bool)
      modifies this
      ensures requestFailed ==> tasks == old(tasks) && error == Some(ToggleFailed)
      ensures !requestFailed ==> error.None?
      ensures !requestFailed ==>
                tasks == (match FindIndex(old(tasks), taskId)
                          case Some(i) => FlipAt(old(tasks), i)
                          case None => old(tasks))
      ensures isLoading == old(isLoading) && showCompleted == old(showCompleted) && sortBy == old(sortBy)
      ensures draggedTaskId == old(draggedTaskId) && dragOverTaskId == old(dragOverTaskId)
    {
      error := None;
      var taskIndex := FindIndex(tasks, taskId);
      if taskIndex.Some? {
        tasks := FlipAt(tasks, taskIndex.value);
      }
      if requestFailed {
        if taskIndex.Some? {
          FlipTwice(old(tasks), taskIndex.value);
          tasks := FlipAt(tasks, taskIndex.value);
        }
        error := Some(ToggleFailed);
      }
    }

    method SetDraggedTask(taskId: Option<int>)
      modifies this
      ensures draggedTaskId == taskId
      ensures tasks == old(tasks) && error == old(error) && dragOverTaskId == old(dragOverTaskId)
      ensures isLoading == old(isLoading) && showCompleted == old(showCompleted) && sortBy == old(sortBy)
    {
      draggedTaskId := taskId;
    }

    method SetDragOverTask(taskId: Option<int>)
      modifies this
      ensures dragOverTaskId == taskId
      ensures tasks == old(tasks) && error == old(error) && draggedTaskId == old(draggedTaskId)
      ensures isLoading == old(isLoading) && showCompleted == old(showCompleted) && sortBy == old(sortBy)
    {
      dragOverTaskId := taskId;
    }

    /**
     * `handleDrop`: the move it requests (task, after), only when both ids
     * are truthy; both ids are cleared either way. What `moveTask` then does
     * to the store (it clears the error and refetches the tasks) is not
     * modelled.
     */
    method HandleDrop() returns (move: Option<(int, int)>)
      modifies this
      ensures move.Some? <==> Truthy(old(draggedTaskId)) && Truthy(old(dragOverTaskId))
      ensures move.Some? ==> move.value == (old(draggedTaskId).value, old(dragOverTaskId).value)
      ensures draggedTaskId.None? && dragOverTaskId.None?
      ensures tasks == old(tasks) && error == old(error)
      ensures isLoading == old(isLoading) && showCompleted == old(showCompleted) && sortBy == old(sortBy)
    {
      move := None;
      if Truthy(draggedTaskId) && Truthy(dragOverTaskId) {
        move := Some((draggedTaskId.value, dragOverTaskId.value));
      }
      draggedTaskId := None;
      dragOverTaskId := None;
    }

    method ClearError()
      modifies this
      ensures error.None?
      ensures tasks == old(tasks) && draggedTaskId == old(draggedTaskId) && dragOverTaskId == old(dragOverTaskId)
      ensures isLoading == old(isLoading) && showCompleted == old(showCompleted) && sortBy == old(sortBy)
    {
      error := None;
    }

    /** `toggleShowCompleted`: negates the flag and nothing else. */
    method ToggleShowCompleted()
      modifies this
      ensures showCompleted == !old(showCompleted)
      ensures tasks == old(tasks) && error == old(error) && sortBy == old(sortBy) && isLoading == old(isLoading)
      ensures draggedTaskId == old(draggedTaskId) && dragOverTaskId == old(dragOverTaskId)
    {
      showCompleted := !showCompleted;
    }

    /** `setSortBy`: sets the option and nothing else. */
    method SetSortBy(option: SortOption)
      modifies this
      ensures sortBy == option
      ensures tasks == old(tasks) && error == old(error) && showCompleted == old(showCompleted) && isLoading == old(isLoading)
      ensures draggedTaskId == old(draggedTaskId) && dragOverTaskId == old(dragOverTaskId)
    {
      sortBy := option;
    }
  }
}
