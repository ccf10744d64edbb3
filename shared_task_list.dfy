// `TaskList` of shared/models/TaskList.ts: an array of task objects in
// insertion order, grown by `push` in `add` and shrunk by `splice` in
// `removeById`.

module SharedTaskList {
  import opened ItemRecords
  import opened ListHistory

  const EmptyTitleMessage := "Task title cannot be empty"

  class TaskList {
    var tasks: seq<Item>

    /**
     * Every task object was allocated by `add`, so no object is held twice.
     * No contract here depends on it; it is kept so that this class matches
     * `TodoList`, where a write through a returned object relies on it.
     */
    ghost predicate Valid()
      reads this
    {
      Distinct(tasks)
    }

    constructor ()
      ensures Valid() && tasks == []
    {
      tasks := [];
    }

    /**
     * Refuses an empty title and changes nothing; otherwise appends a new
     * task numbered with the current length plus one, not completed, and
     * returns that very object.
     */
    method Add(title: string) returns (r: Result<Item>)
      requires Valid()
      modifies this
      ensures Valid()
      ensures |title| == 0 ==> r == Failure(EmptyTitleMessage) && tasks == old(tasks)
      ensures |title| > 0 ==>
        r.Success? && fresh(r.value) && tasks == old(tasks) + [r.value] &&
        r.value.Value() == Record(|old(tasks)| + 1, title, false)
      ensures Records(tasks) == Step(old(Records(tasks)), AddCall(title))
    {
      if |title| == 0 {
        return Failure(EmptyTitleMessage);
      }
      var task := new Item(|tasks| + 1, title, false);
      tasks := tasks + [task];
      r := Success(task);
    }

    /** The stored objects, in insertion order (as a value: the array is not shared). */
    method GetAll() returns (all: seq<Item>)
      ensures all == tasks
    {
      all := tasks;
    }

    /** The first stored object with the given id, or null (`undefined`) when none has it. */
    method GetById(id: int) returns (task: Item?)
      ensures task == null <==> forall i :: 0 <= i < |tasks| ==> tasks[i].id != id
      ensures var k := FindIndex(Records(tasks), id);
        task == if k == -1 then null else tasks[k]
    {
      var k := FindIndex(Records(tasks), id);
      task := if k == -1 then null else tasks[k];
    }

    /**
     * Without a match answers false and changes nothing; otherwise cuts out
     * the first task with that id, keeps the others in order, answers true.
     */
    method RemoveById(id: int) returns (removed: bool)
      requires Valid()
      modifies this
      ensures Valid()
      ensures var k := FindIndex(old(Records(tasks)), id);
        removed == (k != -1) &&
        tasks == if k == -1 then old(tasks) else RemoveAt(old(tasks), k)
      ensures Records(tasks) == Step(old(Records(tasks)), RemoveCall(id))
    {
      var k := FindIndex(Records(tasks), id);
      if k == -1 {
        return false;
      }
      RecordsRemoveAt(tasks, k);
      DistinctRemoveAt(tasks, k);
      tasks := RemoveAt(tasks, k);
      removed := true;
    }

    /** The number of stored tasks, the length of what `GetAll` returns. */
    method Size() returns (n: nat)
      ensures n == |tasks|
    {
      n := |tasks|;
    }
  }
}
