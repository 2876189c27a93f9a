# TodoService: a verified model of the in-memory task store

The service keeps its tasks in one in-memory object, `TodoService`. It
holds the tasks in insertion order and an id counter that starts at 1. Five
operations sit behind the HTTP routes:

- create a task from a title;
- list all tasks;
- fetch one task by id;
- apply a partial update (title and/or completion flag);
- delete a task.

Every operation returns a status with either a payload or a message.

The model has four modules:

- `JsSemantics` (js_semantics.dfy) covers the pieces of JavaScript the service
  relies on:
  - the values a parsed JSON body can hold (`JsValue`);
  - truthiness (`!v`);
  - `String.prototype.trim`, stripping the WhiteSpace and LineTerminator
    code points of ECMA-262.
- `Tasks` (tasks.dfy) holds:
  - the task record and the tagged reply;
  - the PATCH payload;
  - the two array searches the service runs: `findIndex`/`find` as
    `FindIndex`, and `filter` as `Without`.
- `StoreSpec` (store_spec.dfy) states what create, update and delete do, as
  functions on the store's value (`Create`, `Update`, `Delete`). Next to them
  are the lemmas that state what the operations promise:
  - the error cases leave the store unchanged;
  - the field-by-field effect of a success;
  - the store invariant;
  - ids are never reused;
  - an end-to-end session.
- `TodoStore` (todo_service.dfy) is the service itself, a class
  `TodoService`:
  - fields `todos`, `nextId` and a ghost record of every id issued;
  - `CreateTodo`, `UpdateTodo` and `DeleteTodo` update the fields step by
    step as the source does. Each is proved to have exactly the effect of the
    corresponding `StoreSpec` function and to keep the invariant.
  - `GetAllTodo` and `GetTodoById` are read-only functions of the state.

Modelling choices:

- A title or flag read from a request body is a `JsValue`:
  - `Undefined` stands for a property that is absent;
  - `Other(truthy)` stands for numbers, arrays and objects.
- A truthy title that is not a string makes `title.trim()` throw a
  `TypeError` in `createTodo`. The model returns `TypeErrorThrown` and
  leaves the store unchanged.
- The route id arrives already parsed as `Option<int>`. `None` stands for
  `NaN`, which equals no id.
- The current time is a `now` argument.

The store invariant (`StoreSpec.StoreInvariant`) says:

- ids strictly increase along the list, so they are distinct;
- every id ever issued lies in `[1, nextId)`;
- every stored title is non-empty and has no whitespace at either end.

Two behaviours of the code are easy to miss, and the model keeps both:

- `updateTodo` stamps `updated_at` on every successful call
  (src/server.js:104). This includes calls that change nothing: an empty
  patch, or a patch whose only field is a non-boolean `is_completed`.
- `createTodo` with a truthy non-string title (a number, `true`, an array, an
  object) is not a validation error. `title.trim` is not a function there,
  so the call throws.

## Model

| member | source | states |
|---|---|---|
| JsSemantics.Trim | src/server.js:33 | `trim` leaves no whitespace at either end of its result, and its result is empty exactly when the whole string is whitespace |
| JsSemantics.TrimIsInfix | src/server.js:33 | `trim` only removes whitespace: the result is the piece of the input after its leading whitespace, and everything after it is whitespace |
| JsSemantics.TrimUnique | src/server.js:33 | any non-empty piece of the input with no whitespace at its own ends and only whitespace around it is exactly what `trim` returns |
| JsSemantics.TrimIdempotent | src/server.js:97 | trimming a trimmed title again changes nothing |
| JsSemantics.TrimNoOuterWhitespace | src/server.js:97 | a string with no whitespace at either end is its own trim |
| JsSemantics.IsFalsy | src/server.js:24 | `!title`: undefined and null are always falsy, and a falsy string is blank, so for strings the blank-after-trim test already refuses it |
| Tasks.Matches | src/server.js:61 | `t.id === parseInt(id)`: an id that does not parse (NaN) matches no task, and a match means equal ids |
| Tasks.Without | src/server.js:117 | `filter` never lengthens the list (what it keeps is stated by `WithoutKeepsOthers`) |
| Tasks.FindIndex | src/server.js:81 | `findIndex` gives -1 exactly when no task has the id, and otherwise the first position holding a task with that id |
| Tasks.FoundIsUnique | src/server.js:61 | with increasing ids, the task `find` returns is the only one with that id |
| Tasks.WithoutKeepsOthers | src/server.js:117 | `filter` keeps exactly the tasks whose id differs; it returns the same list when none matches and a shorter one when one does |
| Tasks.WithoutRemovesFound | src/server.js:117-119 | with increasing ids, `filter` drops exactly the task at the found position and keeps the rest in order |
| StoreSpec.InitialInvariant | src/server.js:15-16 | the empty list with the counter at 1 satisfies the store invariant |
| StoreSpec.Create | src/server.js:22-45 | only a successful create changes the store; a success adds one task and advances the counter by one |
| StoreSpec.CreateRefusals | src/server.js:24-29 | the reply is 400 exactly for a falsy or all-whitespace title, and a throw exactly for a truthy non-string title |
| StoreSpec.CreateAppends | src/server.js:31-44 | a usable title gives 201 and a task with the old counter as id, the trimmed title and `is_completed` false, appended after the unchanged old tasks, with the counter one higher |
| StoreSpec.CreateKeepsInvariant | src/server.js:32-38 | create keeps the invariant, and the new id is larger than every id issued before, deleted ones included |
| StoreSpec.TitleRejected | src/server.js:92-93 | a supplied title is refused exactly when it is not a string or trims to "" |
| StoreSpec.Patched | src/server.js:97-104 | the patched task keeps `id` and `created_at` and gets `updated_at`; an absent title and a non-boolean flag leave those fields as they were; an accepted title keeps the stored title trimmed and non-empty |
| StoreSpec.Update | src/server.js:79-108 | update never moves the counter or changes the list length, and only a success changes the store |
| StoreSpec.UpdateRefusals | src/server.js:85-96 | 404 exactly when no task has the id; 400 exactly when one does and a supplied title is not a string or is blank, whatever `is_completed` holds |
| StoreSpec.UpdateApplies | src/server.js:92-107 | an accepted update changes only the found task, and in it only the title (trimmed, if given), the flag (if a boolean was given) and `updated_at`; `id` and `created_at` stay |
| StoreSpec.UpdateKeepsInvariant | src/server.js:97-104 | update keeps the invariant |
| StoreSpec.Delete | src/server.js:114-126 | delete never moves the counter and always replies with a message |
| StoreSpec.DeleteOutcomes | src/server.js:117-125 | 404 with the store unchanged exactly when no task has the id; when one has it, 204 and exactly the `filter` result: one task fewer, every other task kept in order, none left with that id |
| StoreSpec.DeleteKeepsInvariant | src/server.js:117 | delete keeps the invariant |
| StoreSpec.DeletedIdNotReissued | src/server.js:114-126 | after deleting a task, a successful create never hands out its id again |
| StoreSpec.EndToEndSession | src/server.js:22-126 | from the empty store: two creates get ids 1 and 2; deleting 1 leaves only task 2; renaming and completing it returns the patched task; deleting it empties the list; the next create gets id 3 |
| TodoStore.TodoService.constructor | src/server.js:15-16 | the service starts with no tasks, the counter at 1, and the invariant holding |
| TodoStore.TodoService.CreateTodo | src/server.js:22-45 | the new fields and the reply are exactly `Create` applied to the old fields; the invariant is kept and the issued ids grow by the new id |
| TodoStore.TodoService.GetAllTodo | src/server.js:47-53 | always 200 with the whole list, whose ids increase in creation order |
| TodoStore.TodoService.GetTodoById | src/server.js:59-73 | 404 exactly when no stored task has the id; otherwise 200 with a stored task carrying that id, which under the invariant is the only one |
| TodoStore.TodoService.UpdateTodo | src/server.js:79-108 | the new fields and the reply are exactly `Update` applied to the old fields; the invariant is kept |
| TodoStore.TodoService.DeleteTodo | src/server.js:114-126 | filtering and comparing lengths has exactly the effect of `Delete` (remove the found task, or 404); the invariant is kept |

## Left out

- The Express wiring is not modelled: imports, environment configuration, the JSON body parser, the route handlers and `listen` (src/server.js:1-9, 129-206). Two defects there are therefore not reproduced. The GET handler compares the result object with `404`, so a missing task is never answered with 404. The first PATCH registration always responds, which leaves the second handler unreachable over HTTP.
- The browser client (public/client.js) is not part of this model.
- `parseInt` on the route id is not modelled. The id arrives already parsed, and an unparsable id is `None`, which matches no task.
- `new Date().toISOString()` is not modelled. The time is an opaque `now` argument, and no date formatting is modelled.
- The wording of error messages is not modelled. A failure is its status code alone.
- The model does not capture aliasing:
  - `getallTodo` and `getTodobyID` hand out the live array and the live record, so a caller could mutate the store through them.
  - `updateTodo` mutates the stored record in place, which in JavaScript is visible through every earlier reference to it. The model replaces the task in the list by value.
- Numbers are unbounded integers. The id counter's loss of precision past 2^53 is not modelled.
- `updateTodo` with a body that is not an object (so that reading `updates.title` would throw) is not modelled. The payload is always a record of two fields.
- Strings are sequences of Unicode scalar values, so a title holding a lone UTF-16 surrogate (which `JSON.parse` accepts, e.g. `"\ud800"`) cannot be represented; `trim` never strips surrogates, so nothing else changes.
- Concurrency is not modelled. The service has none; every operation is synchronous.
