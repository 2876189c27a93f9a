/** The in-memory task store of the service (`TodoService`): the list of
    tasks in insertion order, the id counter, and the five operations the
    HTTP routes call. The mutating operations work on the fields step by
    step and are proved to have exactly the effect of `Create`, `Update`
    and `Delete` in store_spec.dfy, so every lemma proved there holds of
    them. */
module TodoStore {
  import opened JsSemantics
  import opened Tasks
  import opened StoreSpec

  class TodoService {
    var todos: seq<Task>
    var nextId: int
    /** Every id handed out so far, those of deleted tasks included. */
    ghost var issued: set<int>

    /** The fields as a store value. */
    ghost function State(): Store
      reads this
    {
      Store(todos, nextId)
    }

    ghost predicate Valid()
      reads this
    {
      StoreInvariant(State(), issued)
    }

    /** The store as the process starts: no tasks, the counter at 1. */
    constructor ()
      ensures Valid()
      ensures todos == [] && nextId == 1 && issued == {}
    {
      todos := [];
      nextId := 1;
      issued := {};
      InitialInvariant();
    }

    /** `createTodo`: checks the title, takes the counter's id, advances
        the counter, appends the task. The issued ids grow by the new id. */
    method CreateTodo(title: JsValue, now: Timestamp) returns (r: Reply<Task>)
      requires Valid()
      modifies this
      ensures Valid()
      ensures Outcome(State(), r) == Create(old(State()), title, now)
      ensures issued == if r.Data? then old(issued) + {r.data.id} else old(issued)
    {
      ghost var o := Create(State(), title, now);
      CreateKeepsInvariant(State(), issued, title, now);
      if IsFalsy(title) {
        return Message(BAD_REQUEST);
      }
      if !title.Str? {
        // `trim` is not a function on a boolean, number, array or object
        return TypeErrorThrown;
      }
      if Trim(title.s) == "" {
        return Message(BAD_REQUEST);
      }
      var id := nextId;
      nextId := nextId + 1;
      var task := Task(id, Trim(title.s), false, now, None);
      todos := todos + [task];
      issued := issued + {id};
      assert State() == o.store;
      return Data(CREATED, task);
    }

    /** `getallTodo`: always 200 with the whole list, which is in creation
        order because ids are issued in increasing order. */
    function GetAllTodo(): (r: Reply<seq<Task>>)
      reads this
      ensures r.Data? && r.status == OK && r.data == todos
      ensures Valid() ==> IdsIncreasing(r.data)
    {
      Data(OK, todos)
    }

    /** `getTodobyID`: 404 when no stored task has the id (a NaN id matches
        none), otherwise 200 with the task that has it, which under the
        invariant is the only one. */
    function GetTodoById(id: Option<int>): (r: Reply<Task>)
      reads this
      ensures !r.TypeErrorThrown?
      ensures r.Message? <==> forall t :: t in todos ==> !Matches(t, id)
      ensures r.Message? ==> r.status == NOT_FOUND
      ensures r.Data? ==> r.status == OK && r.data in todos && Matches(r.data, id)
      ensures r.Data? && Valid() ==> forall t :: t in todos && Matches(t, id) ==> t == r.data
    {
      var k := FindIndex(todos, id);
      if k < 0 then Message(NOT_FOUND)
      else
        assert Valid() ==> forall j :: 0 <= j < |todos| && Matches(todos[j], id) ==> j == k by {
          if Valid() {
            forall j | 0 <= j < |todos| && Matches(todos[j], id) ensures j == k {
              FoundIsUnique(todos, id, j);
            }
          }
        }
        Data(OK, todos[k])
    }

    /** `updateTodo`: finds the task, checks a supplied title, then sets
        the title, the completion flag and the update time on a copy and
        puts it back at the same position. */
    method UpdateTodo(id: Option<int>, updates: Patch, now: Timestamp) returns (r: Reply<Task>)
      requires Valid()
      modifies this
      ensures Valid()
      ensures Outcome(State(), r) == Update(old(State()), id, updates, now)
      ensures issued == old(issued)
    {
      ghost var o := Update(State(), id, updates, now);
      UpdateKeepsInvariant(State(), issued, id, updates, now);
      var index := FindIndex(todos, id);
      if index == -1 {
        return Message(NOT_FOUND);
      }
      var todo := todos[index];
      if updates.title != Undefined {
        if !updates.title.Str? || Trim(updates.title.s) == "" {
          return Message(BAD_REQUEST);
        }
        todo := todo.(title := Trim(updates.title.s));
      }
      if updates.isCompleted.Bool? {
        todo := todo.(isCompleted := updates.isCompleted.b);
      }
      todo := todo.(updatedAt := Some(now));
      todos := todos[index := todo];
      assert State() == o.store;
      return Data(OK, todo);
    }

    /** `deleteTodo`: filters the list by id and compares lengths; an
        unchanged length is a 404. Because ids are unique, the filter drops
        exactly the task `Delete` removes. */
    method DeleteTodo(id: Option<int>) returns (r: Reply<()>)
      requires Valid()
      modifies this
      ensures Valid()
      ensures Outcome(State(), r) == Delete(old(State()), id)
      ensures issued == old(issued)
    {
      ghost var o := Delete(State(), id);
      DeleteKeepsInvariant(State(), issued, id);
      ghost var k := FindIndex(todos, id);
      if k != -1 {
        WithoutRemovesFound(todos, id);
      } else {
        WithoutKeepsOthers(todos, id);
      }
      var initialLength := |todos|;
      todos := Without(todos, id);
      if |todos| == initialLength {
        assert k == -1;
        assert State() == o.store;
        return Message(NOT_FOUND);
      }
      assert State() == o.store;
      return Message(NO_CONTENT);
    }
  }
}
