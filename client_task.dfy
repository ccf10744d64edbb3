// The list updates of client/src/components/Task.tsx: what `handleTaskClick`
// and `handleTaskDelete` leave as the task list once the server has
// answered. The requests themselves are not modelled; the server's answer is
// a parameter.

module ClientTask {
  import opened ItemRecords

  datatype Option<T> = None | Some(value: T)

  /** The task as the click handler sends it: its own object, flag flipped in place. */
  function Toggled(task: Record): (r: Record)
    ensures r.id == task.id && r.title == task.title
    ensures r.completed == !task.completed
  {
    task.(completed := !task.completed)
  }

  /**
   * `copy[tasks.findIndex(t => t.id === id)] = updated` on a copy: the first
   * task with that id is replaced. With no match the index is -1, and
   * writing to index -1 of an array adds a property, not an element, so the
   * list is the same.
   */
  function ReplaceFound(tasks: seq<Record>, id: int, updated: Record): (r: seq<Record>)
    ensures |r| == |tasks|
    ensures FindIndex(tasks, id) == -1 ==> r == tasks
    ensures var k := FindIndex(tasks, id);
      k >= 0 ==> r[k] == updated && forall i :: 0 <= i < |tasks| && i != k ==> r[i] == tasks[i]
  {
    var k := FindIndex(tasks, id);
    if k == -1 then tasks else tasks[k := updated]
  }

  /**
   * `copy.splice(tasks.findIndex(t => t.id === id), 1)` on a copy: the
   * first task with that id is cut out. With no match `splice(-1, 1)` counts
   * from the end and cuts out the last task (nothing, if the list is empty).
   */
  function RemoveFound(tasks: seq<Record>, id: int): (r: seq<Record>)
    ensures FindIndex(tasks, id) >= 0 ==> r == RemoveFirst(tasks, id) && |r| == |tasks| - 1
    ensures FindIndex(tasks, id) == -1 && tasks != [] ==> r == tasks[..|tasks| - 1]
    ensures tasks == [] ==> r == []
  {
    var k := FindIndex(tasks, id);
    if k != -1 then RemoveAt(tasks, k)
    else if tasks == [] then []
    else tasks[..|tasks| - 1]
  }

  /**
   * The list after a click on `tasks[k]` (the component's `task` is that
   * very object). The flag is flipped in the object before the request, so
   * the list shows it flipped even if the request fails and `setTasks` is
   * never called; on a reply, a copy gets the reply at the first index with
   * the task's id.
   */
  function AfterClick(tasks: seq<Record>, k: nat, reply: Option<Record>): (r: seq<Record>)
    requires k < |tasks|
    ensures |r| == |tasks|
    ensures var f := FindIndex(tasks, tasks[k].id);
      0 <= f <= k &&
      (forall i :: 0 <= i < |tasks| && i != k && (reply.Some? ==> i != f) ==> r[i] == tasks[i]) &&
      (reply.Some? ==> r[f] == reply.value) &&
      ((reply.None? || f != k) ==> r[k] == Toggled(tasks[k]))
  {
    var flipped := tasks[k := Toggled(tasks[k])];
    FindIndexSameIds(tasks, flipped, tasks[k].id);
    match reply
    case None => flipped
    case Some(updated) => ReplaceFound(flipped, tasks[k].id, updated)
  }

  /**
   * The list after a click on delete for the task with id `id`: cut out
   * by RemoveFound when the server accepted, untouched when it refused.
   */
  function AfterDelete(tasks: seq<Record>, id: int, accepted: bool): (r: seq<Record>)
    ensures !accepted ==> r == tasks
    ensures accepted ==> |r| == if tasks == [] then 0 else |tasks| - 1
    ensures accepted && FindIndex(tasks, id) >= 0 ==> r == RemoveFirst(tasks, id)
    ensures accepted && FindIndex(tasks, id) == -1 ==> r == tasks[..|r|]
  {
    if accepted then RemoveFound(tasks, id) else tasks
  }

  /**
   * With distinct ids, a successful update puts the reply exactly where the
   * clicked task was; length, order and every other task stay as they were.
   */
  lemma ClickAcceptedReplacesClickedTask(tasks: seq<Record>, k: nat, updated: Record)
    requires IdsDistinct(tasks) && k < |tasks|
    ensures AfterClick(tasks, k, Some(updated)) == tasks[k := updated]
  {
    var flipped := tasks[k := Toggled(tasks[k])];
    assert forall i :: 0 <= i < |tasks| ==> flipped[i].id == tasks[i].id;
    assert FindIndex(flipped, tasks[k].id) == k by {
      assert flipped[k].id == tasks[k].id;
      assert forall j :: 0 <= j < k ==> flipped[j].id != tasks[k].id;
    }
  }

  /**
   * A refused update still leaves the clicked task flipped in the list
   * (the array is not replaced, but its element was written to); nothing
   * else changes.
   */
  lemma ClickRefusedKeepsFlip(tasks: seq<Record>, k: nat)
    requires k < |tasks|
    ensures var r := AfterClick(tasks, k, None);
      |r| == |tasks| && r[k].completed == !tasks[k].completed &&
      r[k].id == tasks[k].id && r[k].title == tasks[k].title &&
      forall i :: 0 <= i < |tasks| && i != k ==> r[i] == tasks[i]
  {
  }

  /**
   * With distinct ids, a successful delete of `tasks[k]` cuts out exactly
   * that task: the length drops by one, the rest keep their order, and no
   * task with its id is left.
   */
  lemma DeleteAcceptedRemovesTask(tasks: seq<Record>, k: nat)
    requires IdsDistinct(tasks) && k < |tasks|
    ensures var r := AfterDelete(tasks, tasks[k].id, true);
      r == RemoveAt(tasks, k) && |r| == |tasks| - 1 && FindIndex(r, tasks[k].id) == -1
  {
    assert FindIndex(tasks, tasks[k].id) == k by {
      assert forall j :: 0 <= j < k ==> tasks[j].id != tasks[k].id;
    }
    RemoveFirstLeavesNoMatch(tasks, tasks[k].id);
  }

  /**
   * Deleting an id that is not in a non-empty list still removes the last
   * task, because `findIndex` answers -1.
   */
  lemma DeleteMissingDropsLast(tasks: seq<Record>, id: int)
    requires FindIndex(tasks, id) == -1 && tasks != []
    ensures AfterDelete(tasks, id, true) == tasks[..|tasks| - 1]
    ensures |AfterDelete(tasks, id, true)| == |tasks| - 1
  {
  }

  /** A refused delete leaves the list as it was. */
  lemma DeleteRefusedUnchanged(tasks: seq<Record>, id: int)
    ensures AfterDelete(tasks, id, false) == tasks
  {
  }

  /**
   * A single open task: a click answered with the task completed gives the
   * list holding just that completed task; an accepted delete gives [].
   */
  lemma OnlyTaskClickAndDelete(task: Record)
    requires !task.completed
    ensures AfterClick([task], 0, Some(task.(completed := true))) == [task.(completed := true)]
    ensures AfterDelete([task], task.id, true) == []
  {
    assert FindIndex([task], task.id) == 0;
    assert FindIndex([Toggled(task)], task.id) == 0;
  }
}
