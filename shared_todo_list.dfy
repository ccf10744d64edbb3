// `TodoList` of shared/models/TodoList.ts: an array of todo objects in
// insertion order, grown by `push` in `add` and shrunk by `splice` in
// `removeById`; the todo route updates a todo by writing to the object
// `getById` hands out.

module SharedTodoList {
  import opened ItemRecords
  import opened ListHistory

  const EmptyTitleMessage := "Todo title cannot be empty"

  class TodoList {
    var todos: seq<Item>

    /** Every todo object was allocated by `add`, so no object is held twice. */
    ghost predicate Valid()
      reads this
    {
      Distinct(todos)
    }

    constructor ()
      ensures Valid() && todos == []
    {
      todos := [];
    }

    /**
     * Refuses an empty title and changes nothing; otherwise appends a new
     * todo numbered with the current length plus one, not completed, and
     * returns that very object.
     */
    method Add(title: string) returns (r: Result<Item>)
      requires Valid()
      modifies this
      ensures Valid()
      ensures |title| == 0 ==> r == Failure(EmptyTitleMessage) && todos == old(todos)
      ensures |title| > 0 ==>
        r.Success? && fresh(r.value) && todos == old(todos) + [r.value] &&
        r.value.Value() == Record(|old(todos)| + 1, title, false)
      ensures Records(todos) == Step(old(Records(todos)), AddCall(title))
    {
      if |title| == 0 {
        return Failure(EmptyTitleMessage);
      }
      var todo := new Item(|todos| + 1, title, false);
      todos := todos + [todo];
      r := Success(todo);
    }

    /** The stored objects, in insertion order (as a value: the array is not shared). */
    method GetAll() returns (all: seq<Item>)
      ensures all == todos
    {
      all := todos;
    }

    /** The first stored object with the given id, or null (`undefined`) when none has it. */
    method GetById(id: int) returns (todo: Item?)
      ensures todo == null <==> forall i :: 0 <= i < |todos| ==> todos[i].id != id
      ensures var k := FindIndex(Records(todos), id);
        todo == if k == -1 then null else todos[k]
    {
      var k := FindIndex(Records(todos), id);
      todo := if k == -1 then null else todos[k];
    }

    /**
     * Without a match answers false and changes nothing; otherwise cuts out
     * the first todo with that id, keeps the others in order, answers true.
     */
    method RemoveById(id: int) returns (removed: bool)
      requires Valid()
      modifies this
      ensures Valid()
      ensures var k := FindIndex(old(Records(todos)), id);
        removed == (k != -1) &&
        todos == if k == -1 then old(todos) else RemoveAt(old(todos), k)
      ensures Records(todos) == Step(old(Records(todos)), RemoveCall(id))
    {
      var k := FindIndex(Records(todos), id);
      if k == -1 {
        return false;
      }
      RecordsRemoveAt(todos, k);
      DistinctRemoveAt(todos, k);
      todos := RemoveAt(todos, k);
      removed := true;
    }

    /** The number of stored todos, the length of what `GetAll` returns. */
    method Size() returns (n: nat)
      ensures n == |todos|
    {
      n := |todos|;
    }
  }

  /**
   * The todo route's update (PUT /:id): look the todo up with `getById`
   * and, when found, assign the new title and flag to that object. As the
   * object is the one the list holds, the list's record at the first match
   * changes; ids, order, size and every other record stay as they were.
   */
  method UpdateThroughReference(list: TodoList, id: int, title: string, completed: bool)
    returns (todo: Item?)
    requires list.Valid()
    modifies list.todos
    ensures list.Valid()
    ensures todo == null <==> FindIndex(old(Records(list.todos)), id) == -1
    ensures todo != null ==> todo.Value() == Record(id, title, completed)
    ensures Records(list.todos) == SetFirst(old(Records(list.todos)), id, title, completed)
  {
    ghost var before := Records(list.todos);
    ghost var k := FindIndex(before, id);
    todo := list.GetById(id);
    if todo != null {
      todo.title := title;
      todo.completed := completed;
      ghost var expected := before[k := Record(id, title, completed)];
      assert Records(list.todos) == expected by {
        forall i | 0 <= i < |list.todos| ensures expected[i] == list.todos[i].Value() {
          if i != k {
            assert list.todos[i] != todo;
          }
        }
        RecordsFromValues(list.todos, expected);
      }
      SetFirstFound(before, id, title, completed);
    }
  }
}
