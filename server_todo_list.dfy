// `TodoList` of server/src/models/TodoList.ts: the older list whose `add`
// stores a todo the caller built, with no title check and no id assignment.

module ServerTodoList {
  import opened ItemRecords

  class TodoList {
    var todos: seq<Item>

    constructor ()
      ensures todos == []
    {
      todos := [];
    }

    /**
     * Appends the caller's object as it is: its id and title are not looked
     * at, and the caller keeps a reference to the object the list now holds.
     */
    method Add(todo: Item)
      modifies this
      ensures todos == old(todos) + [todo]
      ensures Records(todos) == old(Records(todos)) + [todo.Value()]
    {
      todos := todos + [todo];
    }

    /** The stored objects, in insertion order (as a value: the array is not shared). */
    method GetAll() returns (all: seq<Item>)
      ensures all == todos
    {
      all := todos;
    }

    /** The first stored object with the given id, or null (`undefined`) when none has it. */
    method GetById(id: int) returns (todo: Item?)
      ensures todo == null <==> forall i :: 0 <= i < |todos| ==> todos[i].id != id
      ensures var k := FindIndex(Records(todos), id);
        todo == if k == -1 then null else todos[k]
    {
      var k := FindIndex(Records(todos), id);
      todo := if k == -1 then null else todos[k];
    }

    /**
     * Without a match answers false and changes nothing; otherwise cuts out
     * the first todo with that id, keeps the others in order, answers true.
     */
    method RemoveById(id: int) returns (removed: bool)
      modifies this
      ensures var k := FindIndex(old(Records(todos)), id);
        removed == (k != -1) &&
        todos == if k == -1 then old(todos) else RemoveAt(old(todos), k)
      ensures Records(todos) == RemoveFirst(old(Records(todos)), id)
    {
      var k := FindIndex(Records(todos), id);
      if k == -1 {
        return false;
      }
      RecordsRemoveAt(todos, k);
      todos := RemoveAt(todos, k);
      removed := true;
    }

    /** The number of stored todos, the length of what `GetAll` returns. */
    method Size() returns (n: nat)
      ensures n == |todos|
    {
      n := |todos|;
    }
  }
}
