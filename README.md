# Todo / task list core, modelled in Dafny

This project models the in-memory item list of the todo application and the
two small pieces of list logic in its browser client.

- **The item lists.** There are three near-identical classes. `TaskList` (shared/models/TaskList.ts) and
  `TodoList` (shared/models/TodoList.ts) each keep a private array of
  `{id, title, completed}` objects in insertion order. Their `add(title)` refuses an
  empty title and numbers the new item with the array's current length plus one.
  The older server `TodoList` (server/src/models/TodoList.ts) stores whatever
  object its caller passes to `add`. All three offer `getAll`, `getById`
  (first match), `removeById` (first match, cut out by `splice`) and `size`.
- **Client display order.** This is the comparator App.tsx passes to `tasks.sort`: open tasks come
  first, and ties are broken by ascending id.
- **Client list updates.** These are what `handleTaskClick` and `handleTaskDelete` in Task.tsx
  leave as the task list once the server has answered.

Items are objects (`ItemRecords.Item`), and the lists hold references to them.
`getById` returns the very object the list holds, and the todo route's PUT handler
updates a todo by writing to that object. `SharedTodoList.UpdateThroughReference`
models exactly that. The records a list holds at any moment are
`ItemRecords.Records(...)`. The effect of each call on those records is the pure
function `ListHistory.Step`. The `ensures` of `Add` and `RemoveById` in the two
shared lists tie the new records to `Step` of the old ones. Lemmas about `Replay` (the records after a
whole history of calls) state what histories produce.

On these points the list is not a unique-id registry, and the model follows the code:

- **Ids can repeat.** Ids are not unique and not monotonic. `add` uses `length + 1`, so after a removal a later
  `add` can issue an id that is still present. For example, add three items, remove id 1,
  then add again: the new item gets id 3, and `getById(3)` then finds the old item
  (`ListHistory.IdReusedAfterRemoval`). Distinct, consecutive ids are proved
  only for histories without removals.
- **No `updateById`.** The list classes have no `updateById` method. Items are updated only by writing
  through the reference that `getById` returns.
- **A refused toggle still shows as toggled.** The click handler flips `completed` on the task object itself before sending
  the request. When the request fails, `setTasks` is not called, but the list
  still holds the flipped flag (`ClientTask.ClickRefusedKeepsFlip`).
- **A missing id deletes the last task.** When the deleted id is not in the client's list, `findIndex` gives -1, and
  `splice(-1, 1)` removes the last task (`ClientTask.DeleteMissingDropsLast`).
  The same -1 index in the update handler writes a non-element property, so
  the list does not change.

Both client handlers work on a copy of the array. The client functions take the
list as a value and return the new list, so the `tasks` array they read is
never reordered or resized.

## Model

| member | source | states |
|---|---|---|
| `ItemRecords.FindIndex` | shared/models/TaskList.ts:48 | the result is -1 exactly when no record has the id; otherwise it is the first position whose record has the id (`findIndex`) |
| `ItemRecords.Records` | shared/models/TaskList.ts:4 | the records held by an array of item objects: same length, and position i holds the current fields of object i |
| `ItemRecords.RemoveAt` | shared/models/TaskList.ts:53 | `splice(k, 1)`: one element shorter, elements before k unchanged, elements after k shifted down by one, and the same multiset less the cut element |
| `ItemRecords.RemoveFirst` | shared/models/TaskList.ts:47-56 | without a match the records are unchanged; with a match the list is one shorter, everything before the first match is kept and everything after it moves down by one |
| `ItemRecords.RemoveFirstSpec` | shared/models/TaskList.ts:47-56 | removal without a match leaves the records unchanged; with a match it cuts out exactly the first matching record, and reinserting that record at its position gives back the original list |
| `ItemRecords.RemoveFirstLeavesNoMatch` | server/src/__tests__/TaskList.models.test.ts:46-53 | when ids are distinct, no record with the removed id remains, and ids stay distinct |
| `ItemRecords.SetFirst` | server/src/routes/todos.ts:48-54 | writing title and flag to the object at the first match keeps the length and every id, puts {id, title, flag} at the first match, and leaves every other record as it was |
| `ItemRecords.SetFirstSpec` | server/src/routes/todos.ts:48-56 | writing title and flag through the object `getById` returns keeps the length and every id; the next `getById` finds the same position, which now holds the new title and flag; every other record is unchanged |
| `ItemRecords.FindIndexSameIds` | shared/models/TaskList.ts:39 | search by id depends only on the ids |
| `ItemRecords.RecordsRemoveAt` | shared/models/TaskList.ts:53 | cutting an object out of the array cuts its record out of the records |
| `ItemRecords.DistinctRemoveAt` | shared/models/TaskList.ts:53 | after a splice, no object is held twice |
| `ItemRecords.RecordsFromValues` | shared/models/TodoList.ts:38-40 | the records are determined by the current fields of each held object |
| `ListHistory.AddsOnlyAppend` | shared/models/TaskList.ts:15-21 | adds alone keep the existing records and append one record per non-empty title, numbered on from the current length, not completed |
| `ListHistory.AddsOnlyIssueConsecutiveIds` | shared/models/TaskList.ts:16 | on a fresh list with no removals, the i-th accepted add holds id i+1 with its title and `completed == false`; the size is the number of accepted adds |
| `ListHistory.AddsOnlyIdsDistinct` | shared/models/TodoList.ts:16 | with no removals, no two records share an id |
| `ListHistory.AddsOnlyGetByIdFindsNewRecord` | shared/models/TaskList.ts:15-22 | with no removals, looking up the id `add` just issued finds the new record |
| `ListHistory.IdReusedAfterRemoval` | shared/models/TaskList.ts:16 | add a, b, c, remove id 1, then add d: the list holds ids 2, 3, 3, and looking up 3 finds "c", not "d" |
| `ListHistory.RemoveFirstThenAdd` | shared/models/TaskList.ts:47-56 | the records that history produces, written out |
| `ListHistory.ReplayThreeAdds` | shared/models/TaskList.ts:10-23 | three accepted adds on a fresh list give ids 1, 2, 3 in order, whatever calls follow |
| `ListHistory.ThreeAddsGiveIdsOneToThree` | server/src/__tests__/TaskList.models.test.ts:59-69 | adding "Task 1", "Task 2" and "Task 3" gives ids 1, 2 and 3 in insertion order |
| `ListHistory.ThreeAddsThenRemoveMiddle` | shared/models/TaskList.ts:47-56 | removing id 2 after those three adds leaves ids 1 and 3, in order |
| `ListHistory.Step` | shared/models/TaskList.ts:10-56 | `add` with an empty title leaves the records unchanged; a non-empty title adds exactly one record at the end (id = old size + 1, not completed) and keeps all earlier records; `removeById` gives `RemoveFirst` of the records |
| `ListHistory.StepKeepsIdsPositive` | shared/models/TaskList.ts:16 | no call introduces an id below 1 |
| `ListHistory.IdsPositive` | shared/models/TodoList.ts:16 | every id a shared list ever holds is at least 1 |
| `SharedTaskList.TaskList.constructor` | shared/models/TaskList.ts:4 | a new list is empty |
| `SharedTaskList.TaskList.Add` | shared/models/TaskList.ts:10-23 | an empty title fails with "Task title cannot be empty" and changes nothing; otherwise a fresh object {old size + 1, title, false} is pushed and returned; the records advance by `Step` |
| `SharedTaskList.TaskList.GetAll` | shared/models/TaskList.ts:29-31 | returns the stored objects, in insertion order |
| `SharedTaskList.TaskList.GetById` | shared/models/TaskList.ts:38-40 | returns null exactly when no task has the id; otherwise the stored object at the first match |
| `SharedTaskList.TaskList.RemoveById` | shared/models/TaskList.ts:47-56 | without a match, answers false and changes nothing; otherwise cuts out the first match, keeps the rest in order and answers true; no object is held twice |
| `SharedTaskList.TaskList.Size` | shared/models/TaskList.ts:62-64 | the number of stored tasks, which is the length of `GetAll` |
| `SharedTodoList.TodoList.constructor` | shared/models/TodoList.ts:4 | a new list is empty |
| `SharedTodoList.TodoList.Add` | shared/models/TodoList.ts:10-23 | an empty title fails with "Todo title cannot be empty" and changes nothing; otherwise a fresh object {old size + 1, title, false} is pushed and returned |
| `SharedTodoList.TodoList.GetAll` | shared/models/TodoList.ts:29-31 | returns the stored objects, in insertion order |
| `SharedTodoList.TodoList.GetById` | shared/models/TodoList.ts:38-40 | returns null exactly when no todo has the id; otherwise the stored object, not a copy, at the first match |
| `SharedTodoList.TodoList.RemoveById` | shared/models/TodoList.ts:47-56 | without a match, answers false and changes nothing; otherwise cuts out only the first match and answers true |
| `SharedTodoList.TodoList.Size` | shared/models/TodoList.ts:62-64 | the number of stored todos |
| `SharedTodoList.UpdateThroughReference` | server/src/routes/todos.ts:45-57 | the PUT handler's lookup and write: null exactly when no todo has the id; otherwise the list's record at the first match takes the new title and flag, and ids, order, size and every other record stay the same |
| `ServerTodoList.TodoList.constructor` | server/src/models/TodoList.ts:4 | a new list is empty |
| `ServerTodoList.TodoList.Add` | server/src/models/TodoList.ts:10-12 | pushes the caller's object unchanged, with no title check and no id assignment; the size grows by one |
| `ServerTodoList.TodoList.GetAll` | server/src/models/TodoList.ts:18-20 | returns the stored objects, in insertion order |
| `ServerTodoList.TodoList.GetById` | server/src/models/TodoList.ts:27-29 | null exactly when no todo has the id; otherwise the object at the first match |
| `ServerTodoList.TodoList.RemoveById` | server/src/models/TodoList.ts:36-45 | without a match, answers false and changes nothing; otherwise cuts out exactly the first match, keeping the order of the rest, and answers true |
| `ServerTodoList.TodoList.Size` | server/src/models/TodoList.ts:51-53 | the number of stored todos |
| `ClientApp.Compare` | client/src/App.tsx:52-60 | tasks with the same flag compare by id (negative exactly when the lower id is first, zero exactly on equal ids); an open task is always less than a completed one, whatever the ids |
| `ClientApp.CompareAntisymmetric` | client/src/App.tsx:52-60 | the sign of cmp(a, b) is the negation of the sign of cmp(b, a) |
| `ClientApp.CompareTransitive` | client/src/App.tsx:52-60 | "not after" is transitive, so the comparator is a consistent ordering for `sort` |
| `ClientApp.Insert` | client/src/App.tsx:52-60 | inserting into an ordered list keeps it ordered, and the multiset gains exactly the inserted task |
| `ClientApp.SortTasks` | client/src/App.tsx:51-60 | the sorted list is ordered by the comparator and is a permutation of the input |
| `ClientApp.SortedOpenFirstThenById` | client/src/App.tsx:51-60 | after sorting, every open task precedes every completed task, and within each group ids never decrease |
| `ClientApp.OrderedPermutationUnique` | client/src/App.tsx:51-60 | when ids determine tasks, two ordered permutations of the same tasks are equal |
| `ClientApp.OrderedHeadsEqual` | client/src/App.tsx:52-60 | two ordered permutations begin with the same task |
| `ClientApp.SortTasksIsTheSortedOrder` | client/src/App.tsx:51-52 | any ordered permutation of a list whose ids determine its tasks (for example, distinct ids) equals `SortTasks`, whatever algorithm the engine uses |
| `ClientApp.SortExample` | client/src/App.tsx:51-60 | completed 2, open 3 and open 1 are displayed as 1, 3, 2 |
| `ClientTask.ReplaceFound` | client/src/components/Task.tsx:68-69 | same length; the first task with the id is replaced by the reply and every other position is unchanged; with no match the list is unchanged |
| `ClientTask.RemoveFound` | client/src/components/Task.tsx:84-85 | with a match, the first task with the id is cut out, so the list is one shorter and the rest keep their order; with no match the last task is cut out; an empty list stays empty |
| `ClientTask.Toggled` | client/src/components/Task.tsx:64 | the clicked task keeps its id and title and its `completed` flag is negated |
| `ClientTask.AfterClick` | client/src/components/Task.tsx:63-75 | same length; on a reply the first task with the clicked task's id holds the reply; the clicked task stays flipped when there is no reply or when an earlier task has its id; every position other than the clicked one and, on a reply, that first match is unchanged |
| `ClientTask.AfterDelete` | client/src/components/Task.tsx:81-91 | a refused delete leaves the list unchanged; an accepted one makes a non-empty list one shorter, cutting the first task with the id, or the last task when no task has it; an empty list stays empty |
| `ClientTask.ClickAcceptedReplacesClickedTask` | client/src/components/Task.tsx:63-70 | with distinct ids, a successful update leaves the list with the reply exactly where the clicked task was, and everything else unchanged |
| `ClientTask.ClickRefusedKeepsFlip` | client/src/components/Task.tsx:64 | on a failed update the array is not replaced, but the clicked task keeps its flipped flag; no other position changes |
| `ClientTask.DeleteAcceptedRemovesTask` | client/src/components/Task.tsx:81-86 | with distinct ids, a successful delete cuts out exactly the clicked task: one shorter, order kept, and no task with that id remains |
| `ClientTask.DeleteMissingDropsLast` | client/src/components/Task.tsx:85 | deleting an id absent from a non-empty list removes the last task |
| `ClientTask.DeleteRefusedUnchanged` | client/src/components/Task.tsx:88-90 | on a failed delete the list is unchanged |
| `ClientTask.OnlyTaskClickAndDelete` | client/src/__tests__/Task.test.tsx:22-40 | for a single open task, a click answered with the completed task gives `[{...task, completed: true}]`, and an accepted delete gives `[]` |

## Left out

- HTTP routing and validation are left out. This covers the Express routers, the express-validator chains, the error and validation middlewares, and the Swagger setup. The one exception is the todo PUT handler's write through the `getById` reference.
- The database-backed routes are left out. Their behaviour lives in an external database client that is not part of this model.
- Client network code is left out: `updateTask`, `removeTask`, `fetchTasks`, `addTask` and the services module. The server's answer to an update or delete is a parameter of `AfterClick` and `AfterDelete`, with `None` or `false` standing for a rejected promise.
- React rendering and state hooks are left out. `setTasks` is modelled as the returned list.
- ClientApp.SortTasks: `tasks.sort` reorders the React state array in place. The model gives the sorted list as a value. It does not model the engine's sorting algorithm, only the properties of its result. Stability for tasks that share an id and a flag is not proved.
- Numbers and strings: ids are JavaScript numbers and titles are UTF-16 strings. The model uses unbounded integers and character sequences. `title.length` is the sequence length.
- SharedTaskList.TaskList.GetAll: the array it returns is the list's own array, so a caller could push into it or splice it, and later `push` or `splice` by the list shows in it. The model returns the objects as a sequence value, so that sharing of the array is not modelled. Writes to the item objects are modelled.
- SharedTodoList.TodoList.GetAll: the same as for `SharedTaskList.TaskList.GetAll`. The returned sequence does not share the array with the list.
- ServerTodoList.TodoList.GetAll: the same as for `SharedTaskList.TaskList.GetAll`. The returned sequence does not share the array with the list.
- ServerTodoList.TodoList.Add: the caller keeps a reference to the object it added and may change it later. The model's frames allow this, but no invariant is kept about such objects.
