/** What each operation of the task store does, as functions on the store's
    value: the list of tasks and the id counter. The class in
    todo_service.dfy runs the same operations step by step on its fields
    and is proved to agree with these functions; the lemmas here state
    what the operations promise. */
module StoreSpec {
  import opened JsSemantics
  import opened Tasks

  /** The two fields of the store: tasks in insertion order, and the id the
      next created task will get. */
  datatype Store = Store(todos: seq<Task>, nextId: int)

  /** An operation's effect: the store afterwards and the reply. */
  datatype Outcome<T> = Outcome(store: Store, reply: Reply<T>)

  /** The store's invariant, given the set of every id issued so far: ids
      increase along the list; every stored id was issued; every issued id
      lies in [1, nextId); every stored title is non-empty and trimmed. */
  ghost predicate StoreInvariant(st: Store, issued: set<int>) {
    && 1 <= st.nextId
    && IdsIncreasing(st.todos)
    && (forall t :: t in st.todos ==> t.id in issued && IsStoredTitle(t.title))
    && (forall i :: i in issued ==> 1 <= i < st.nextId)
  }

  /** The empty store the service starts with. */
  lemma InitialInvariant()
    ensures StoreInvariant(Store([], 1), {})
  {
  }

  // ---------------------------------------------------------------- create

  /** `createTodo`: refuse a falsy or blank title, let a truthy non-string
      title throw from `trim`, otherwise append a task with the counter's id
      and advance the counter. Only a success changes the store. */
  function Create(st: Store, title: JsValue, now: Timestamp): (o: Outcome<Task>)
    ensures !o.reply.Data? ==> o.store == st
    ensures o.reply.Data? ==> o.store.nextId == st.nextId + 1 && |o.store.todos| == |st.todos| + 1
  {
    if IsFalsy(title) then Outcome(st, Message(BAD_REQUEST))
    else if !title.Str? then Outcome(st, TypeErrorThrown)
    else if Trim(title.s) == "" then Outcome(st, Message(BAD_REQUEST))
    else
      var task := Task(st.nextId, Trim(title.s), false, now, None);
      Outcome(Store(st.todos + [task], st.nextId + 1), Data(CREATED, task))
  }

  /** Which titles `createTodo` refuses with 400 (missing, falsy, or made of
      whitespace only) and which make it throw (truthy non-strings). */
  lemma CreateRefusals(st: Store, title: JsValue, now: Timestamp)
    ensures var o := Create(st, title, now);
      && (o.reply == Message(BAD_REQUEST) <==> IsFalsy(title) || (title.Str? && AllWhitespace(title.s)))
      && (o.reply == TypeErrorThrown <==> !IsFalsy(title) && !title.Str?)
  {
  }

  /** A usable title: the new task comes last, with the old counter as its
      id, the trimmed title and `isCompleted` false; the tasks before it are
      untouched and the counter grows by exactly one. */
  lemma CreateAppends(st: Store, title: JsValue, now: Timestamp)
    requires title.Str? && !AllWhitespace(title.s)
    ensures var o := Create(st, title, now);
      && o.reply.Data? && o.reply.status == CREATED
      && o.reply.data == Task(st.nextId, Trim(title.s), false, now, None)
      && IsStoredTitle(o.reply.data.title)
      && o.store.todos[..|st.todos|] == st.todos
      && o.store.todos[|st.todos|] == o.reply.data
      && o.store.nextId == st.nextId + 1
  {
    var o := Create(st, title, now);
    assert title.s != "";
    assert o.store.todos[..|st.todos|] == st.todos;
  }

  /** Create keeps the invariant, and the id it hands out is larger than
      every id issued before, deleted ones included. */
  lemma CreateKeepsInvariant(st: Store, issued: set<int>, title: JsValue, now: Timestamp)
    requires StoreInvariant(st, issued)
    ensures var o := Create(st, title, now);
      && StoreInvariant(o.store, if o.reply.Data? then issued + {o.reply.data.id} else issued)
      && (o.reply.Data? ==> forall i :: i in issued ==> i < o.reply.data.id)
  {
    if !IsFalsy(title) && title.Str? && Trim(title.s) != "" {
      AppendKeepsInvariant(st, issued, Task(st.nextId, Trim(title.s), false, now, None));
    }
  }

  /** Appending a task that takes the counter's id and has a stored title,
      then advancing the counter, keeps the invariant. */
  lemma AppendKeepsInvariant(st: Store, issued: set<int>, task: Task)
    requires StoreInvariant(st, issued)
    requires task.id == st.nextId && IsStoredTitle(task.title)
    ensures StoreInvariant(Store(st.todos + [task], st.nextId + 1), issued + {task.id})
  {
    var ts := st.todos + [task];
    forall i, j | 0 <= i < j < |ts| ensures ts[i].id < ts[j].id {
      assert ts[i] in st.todos;
    }
  }

  // ---------------------------------------------------------------- update

  /** The title check `updateTodo` runs when a title is supplied: anything
      but a string with a non-whitespace character is refused. It is the
      source's test (`typeof` is not string, or `trim` gives ""). */
  predicate TitleRejected(title: JsValue)
    ensures TitleRejected(title) <==> title != Undefined && (!title.Str? || Trim(title.s) == "")
  {
    title != Undefined && (!title.Str? || AllWhitespace(title.s))
  }

  /** The task after an accepted update: the trimmed new title if one was
      supplied, the new completion flag only if it is a boolean, a fresh
      `updatedAt`; id and creation time are kept. */
  function Patched(t: Task, updates: Patch, now: Timestamp): (r: Task)
    ensures r.id == t.id && r.createdAt == t.createdAt && r.updatedAt == Some(now)
    ensures updates.title == Undefined ==> r.title == t.title
    ensures !TitleRejected(updates.title) && IsStoredTitle(t.title) ==> IsStoredTitle(r.title)
    ensures !updates.isCompleted.Bool? ==> r.isCompleted == t.isCompleted
  {
    Task(
      t.id,
      if updates.title.Str? then Trim(updates.title.s) else t.title,
      if updates.isCompleted.Bool? then updates.isCompleted.b else t.isCompleted,
      t.createdAt,
      Some(now))
  }

  /** `updateTodo`: 404 when no task has the id, 400 when a supplied title
      is not a string or is blank once trimmed, otherwise the found task is
      replaced by its patched version in place. The counter never moves and
      only a success changes the list. */
  function Update(st: Store, id: Option<int>, updates: Patch, now: Timestamp): (o: Outcome<Task>)
    ensures o.store.nextId == st.nextId && |o.store.todos| == |st.todos|
    ensures !o.reply.Data? ==> o.store == st
  {
    var k := FindIndex(st.todos, id);
    if k == -1 then Outcome(st, Message(NOT_FOUND))
    else if updates.title != Undefined && (!updates.title.Str? || Trim(updates.title.s) == "") then
      Outcome(st, Message(BAD_REQUEST))
    else
      var task := Patched(st.todos[k], updates, now);
      Outcome(st.(todos := st.todos[k := task]), Data(OK, task))
  }

  /** When `updateTodo` refuses: 404 exactly when no task has the id; 400
      exactly when one does and the supplied title is unusable, even if a
      valid completion flag came with it. */
  lemma UpdateRefusals(st: Store, id: Option<int>, updates: Patch, now: Timestamp)
    ensures var o := Update(st, id, updates, now);
      && (o.reply == Message(NOT_FOUND) <==> forall t :: t in st.todos ==> !Matches(t, id))
      && (o.reply == Message(BAD_REQUEST) <==>
            (exists t :: t in st.todos && Matches(t, id)) && TitleRejected(updates.title))
  {
  }

  /** An accepted update changes only the found task, and in it only the
      title (to the trimmed new one, if given), the flag (if a boolean was
      given) and `updatedAt`. */
  lemma UpdateApplies(st: Store, id: Option<int>, updates: Patch, now: Timestamp)
    requires exists t :: t in st.todos && Matches(t, id)
    requires !TitleRejected(updates.title)
    ensures var o := Update(st, id, updates, now);
      var k := FindIndex(st.todos, id);
      var before := st.todos[k];
      && o.reply.Data? && o.reply.status == OK
      && o.store.todos[k] == o.reply.data
      && (forall j :: 0 <= j < |st.todos| && j != k ==> o.store.todos[j] == st.todos[j])
      && o.reply.data.id == before.id
      && o.reply.data.createdAt == before.createdAt
      && o.reply.data.title == (if updates.title.Str? then Trim(updates.title.s) else before.title)
      && o.reply.data.isCompleted ==
           (if updates.isCompleted.Bool? then updates.isCompleted.b else before.isCompleted)
      && o.reply.data.updatedAt == Some(now)
  {
  }

  /** Update keeps the invariant. */
  lemma UpdateKeepsInvariant(st: Store, issued: set<int>, id: Option<int>, updates: Patch, now: Timestamp)
    requires StoreInvariant(st, issued)
    ensures StoreInvariant(Update(st, id, updates, now).store, issued)
  {
    var o := Update(st, id, updates, now);
    if o.reply.Data? {
      var k := FindIndex(st.todos, id);
      ReplaceKeepsIncreasing(st.todos, k, o.reply.data);
    }
  }

  // ---------------------------------------------------------------- delete

  /** `deleteTodo`: 404 when no task has the id, otherwise the found task
      is dropped and the rest keep their order. The counter never moves.
      This cuts out only the first task with the id, while the source's
      `filter` drops every one; the two agree when ids are distinct, as the
      store invariant guarantees (`WithoutRemovesFound`), and `DeleteTodo`
      is proved equal to this function only under that invariant. */
  function Delete(st: Store, id: Option<int>): (o: Outcome<()>)
    ensures o.store.nextId == st.nextId
    ensures o.reply.Message?
  {
    var k := FindIndex(st.todos, id);
    if k == -1 then Outcome(st, Message(NOT_FOUND))
    else Outcome(st.(todos := st.todos[..k] + st.todos[k + 1..]), Message(NO_CONTENT))
  }

  /** 404 and an unchanged store exactly when no task has the id; when one
      has it, 204 and the list the source's `filter` leaves: one task fewer,
      every other task kept in order, and no task with that id left. */
  lemma DeleteOutcomes(st: Store, issued: set<int>, id: Option<int>)
    requires StoreInvariant(st, issued)
    ensures var o := Delete(st, id);
      && (o.reply.status == NOT_FOUND <==> forall t :: t in st.todos ==> !Matches(t, id))
      && (o.reply.status == NOT_FOUND ==> o.store == st)
      && ((exists t :: t in st.todos && Matches(t, id)) ==>
            && o.reply.status == NO_CONTENT
            && o.store.todos == Without(st.todos, id)
            && |o.store.todos| == |st.todos| - 1
            && (forall t :: t in o.store.todos <==> t in st.todos && !Matches(t, id)))
  {
    var k := FindIndex(st.todos, id);
    if k != -1 {
      WithoutRemovesFound(st.todos, id);
      WithoutKeepsOthers(st.todos, id);
    }
  }

  /** Delete keeps the invariant. */
  lemma DeleteKeepsInvariant(st: Store, issued: set<int>, id: Option<int>)
    requires StoreInvariant(st, issued)
    ensures StoreInvariant(Delete(st, id).store, issued)
  {
    var k := FindIndex(st.todos, id);
    if k != -1 {
      RemoveKeepsIncreasing(st.todos, k);
    }
  }

  /** An id whose task was deleted is never handed out again: the next
      create, if it succeeds, gives a different id. */
  lemma DeletedIdNotReissued(st: Store, issued: set<int>, id: Option<int>, title: JsValue, now: Timestamp)
    requires StoreInvariant(st, issued)
    requires exists t :: t in st.todos && Matches(t, id)
    ensures var o := Create(Delete(st, id).store, title, now);
      o.reply.Data? ==> Some(o.reply.data.id) != id
  {
    var t :| t in st.todos && Matches(t, id);
    assert t.id in issued;
  }

  // -------------------------------------------------------------- sessions

  /** A whole session from the empty store, for any titles that are already
      trimmed: the first two creates get ids 1 and 2; deleting id 1 leaves
      only the second task; renaming and completing it returns the patched
      task; deleting it empties the list; the next create gets id 3, not a
      freed one. */
  lemma EndToEndSession(first: string, second: string, renamed: string, last: string)
    requires IsStoredTitle(first) && IsStoredTitle(second)
    requires IsStoredTitle(renamed) && IsStoredTitle(last)
    ensures var c1 := Create(Store([], 1), Str(first), "t1");
      var c2 := Create(c1.store, Str(second), "t2");
      var d1 := Delete(c2.store, Some(1));
      var u2 := Update(d1.store, Some(2), Patch(Str(renamed), Bool(true)), "t3");
      var d2 := Delete(u2.store, Some(2));
      var c3 := Create(d2.store, Str(last), "t4");
      && c1.reply == Data(CREATED, Task(1, first, false, "t1", None))
      && c2.reply == Data(CREATED, Task(2, second, false, "t2", None))
      && d1.reply == Message(NO_CONTENT) && d1.store.todos == [c2.reply.data]
      && u2.reply == Data(OK, Task(2, renamed, true, "t2", Some("t3")))
      && d2.reply == Message(NO_CONTENT) && d2.store.todos == []
      && c3.reply == Data(CREATED, Task(3, last, false, "t4", None))
  {
    SessionOpening(first, second);
    SessionClosing(second, renamed, last);
  }

  /** The first half of `EndToEndSession`: two creates, then deleting id 1. */
  lemma SessionOpening(first: string, second: string)
    requires IsStoredTitle(first) && IsStoredTitle(second)
    ensures var c1 := Create(Store([], 1), Str(first), "t1");
      var c2 := Create(c1.store, Str(second), "t2");
      var d1 := Delete(c2.store, Some(1));
      && c1.reply == Data(CREATED, Task(1, first, false, "t1", None))
      && c2.reply == Data(CREATED, Task(2, second, false, "t2", None))
      && d1 == Outcome(Store([c2.reply.data], 3), Message(NO_CONTENT))
  {
    TrimNoOuterWhitespace(first);
    TrimNoOuterWhitespace(second);
    var c1 := Create(Store([], 1), Str(first), "t1");
    assert c1.store.todos == [c1.reply.data];
    var c2 := Create(c1.store, Str(second), "t2");
    assert c2.store.todos == [c1.reply.data, c2.reply.data];
  }

  /** The second half of `EndToEndSession`: from the store holding only
      task 2, rename and complete it, delete it, and create again. */
  lemma SessionClosing(second: string, renamed: string, last: string)
    requires IsStoredTitle(renamed) && IsStoredTitle(last)
    ensures var st := Store([Task(2, second, false, "t2", None)], 3);
      var u2 := Update(st, Some(2), Patch(Str(renamed), Bool(true)), "t3");
      var d2 := Delete(u2.store, Some(2));
      var c3 := Create(d2.store, Str(last), "t4");
      && u2.reply == Data(OK, Task(2, renamed, true, "t2", Some("t3")))
      && d2.reply == Message(NO_CONTENT) && d2.store.todos == []
      && c3.reply == Data(CREATED, Task(3, last, false, "t4", None))
  {
    TrimNoOuterWhitespace(renamed);
    TrimNoOuterWhitespace(last);
    var st := Store([Task(2, second, false, "t2", None)], 3);
    var u2 := Update(st, Some(2), Patch(Str(renamed), Bool(true)), "t3");
    assert u2.store.todos == [u2.reply.data];
  }
}
