/** Task records, the tagged replies of the service, the update payload, and
    the array searches the service runs over its list of tasks
    (`Array.prototype.find`, `findIndex` and `filter` keyed on the id). */
module Tasks {
  import opened JsSemantics

  datatype Option<T> = None | Some(value: T)

  /** The text of `new Date().toISOString()`; the model treats it as opaque. */
  type Timestamp = string

  /** A stored task. `updatedAt` is absent until the first successful update. */
  datatype Task = Task(
    id: int,
    title: string,
    isCompleted: bool,
    createdAt: Timestamp,
    updatedAt: Option<Timestamp>)

  /** What every service operation returns instead of throwing: a status with
      a payload, or a status with a message (the wording is not modelled).
      `TypeErrorThrown` is the exception JavaScript raises when a truthy
      non-string title reaches `title.trim()`. */
  datatype Reply<T> = Data(status: int, data: T) | Message(status: int) | TypeErrorThrown

  const OK := 200
  const CREATED := 201
  const NO_CONTENT := 204
  const BAD_REQUEST := 400
  const NOT_FOUND := 404

  /** The body of a PATCH request: the two fields the service looks at;
      every other field is ignored. */
  datatype Patch = Patch(title: JsValue, isCompleted: JsValue)

  /** `t.id === parseInt(id)`; a route id that does not parse (NaN) is `None`
      and equals no id. */
  predicate Matches(t: Task, id: Option<int>)
    ensures id == None ==> !Matches(t, id)
    ensures Matches(t, id) ==> id.value == t.id
  {
    id == Some(t.id)
  }

  /** A title as the store keeps it: non-empty and with no whitespace at
      either end, so that trimming it again changes nothing
      (`TrimNoOuterWhitespace`). */
  predicate IsStoredTitle(title: string) {
    title != [] && NoOuterWhitespace(title)
  }

  /** Ids strictly increase along the list (so they are also distinct). */
  predicate IdsIncreasing(ts: seq<Task>) {
    forall i, j :: 0 <= i < j < |ts| ==> ts[i].id < ts[j].id
  }

  /** `todos.findIndex(t => t.id === id)`: the first position whose task
      matches, or -1 when none does. */
  function FindIndex(ts: seq<Task>, id: Option<int>): (k: int)
    ensures -1 <= k < |ts|
    ensures k == -1 <==> forall t :: t in ts ==> !Matches(t, id)
    ensures 0 <= k ==> Matches(ts[k], id) && forall j :: 0 <= j < k ==> !Matches(ts[j], id)
  {
    if ts == [] then -1
    else if Matches(ts[0], id) then 0
    else
      var k := FindIndex(ts[1..], id);
      assert forall t :: t in ts ==> t == ts[0] || t in ts[1..];
      if k == -1 then -1 else k + 1
  }

  /** `todos.filter(t => t.id !== id)`: keeps, in order, the tasks that do
      not match (`WithoutKeepsOthers` says which). */
  function Without(ts: seq<Task>, id: Option<int>): (r: seq<Task>)
    ensures |r| <= |ts|
  {
    if ts == [] then []
    else
      var rest := Without(ts[1..], id);
      if Matches(ts[0], id) then rest else [ts[0]] + rest
  }

  /** The filter keeps exactly the tasks that do not match; it returns the
      same list when no task matches and a shorter one when some does. */
  lemma {:induction false} WithoutKeepsOthers(ts: seq<Task>, id: Option<int>)
    ensures forall t :: t in Without(ts, id) <==> t in ts && !Matches(t, id)
    ensures (forall t :: t in ts ==> !Matches(t, id)) ==> Without(ts, id) == ts
    ensures (exists t :: t in ts && Matches(t, id)) ==> |Without(ts, id)| < |ts|
  {
    if ts != [] {
      WithoutKeepsOthers(ts[1..], id);
      assert forall t :: t in ts <==> t == ts[0] || t in ts[1..];
      assert ts == [ts[0]] + ts[1..];
    }
  }

  /** In a list with increasing ids, the task found for an id is the only
      one carrying it. */
  lemma FoundIsUnique(ts: seq<Task>, id: Option<int>, j: int)
    requires IdsIncreasing(ts)
    requires 0 <= j < |ts| && Matches(ts[j], id)
    ensures FindIndex(ts, id) == j
  {
    var k := FindIndex(ts, id);
    assert 0 <= k;
    assert ts[k].id == ts[j].id;
  }

  /** In a list with increasing ids, the filter removes exactly the task at
      the position `findIndex` reports and keeps the others in order. */
  lemma {:induction false} WithoutRemovesFound(ts: seq<Task>, id: Option<int>)
    requires IdsIncreasing(ts)
    requires 0 <= FindIndex(ts, id)
    ensures var k := FindIndex(ts, id);
      Without(ts, id) == ts[..k] + ts[k + 1..]
    decreases |ts|, 1
  {
    if Matches(ts[0], id) {
      WithoutRemovesHead(ts, id);
    } else {
      WithoutRemovesLater(ts, id);
    }
  }

  /** The match lies past the head: the filter keeps the head and removes
      the match from the tail. */
  lemma {:induction false} WithoutRemovesLater(ts: seq<Task>, id: Option<int>)
    requires IdsIncreasing(ts) && ts != [] && !Matches(ts[0], id)
    requires 0 <= FindIndex(ts, id)
    ensures var k := FindIndex(ts, id);
      Without(ts, id) == ts[..k] + ts[k + 1..]
    decreases |ts|, 0
  {
    var k := FindIndex(ts, id);
    FindInTail(ts, id);
    WithoutKeepsHead(ts, id);
    WithoutRemovesFound(ts[1..], id);
    SpliceTail(ts, k);
  }

  /** The first task does not carry the id: the filter keeps it in front. */
  lemma WithoutKeepsHead(ts: seq<Task>, id: Option<int>)
    requires ts != [] && !Matches(ts[0], id)
    ensures Without(ts, id) == [ts[0]] + Without(ts[1..], id)
  {
  }

  /** A match found past the head is found one place earlier in the tail,
      whose ids still increase. */
  lemma FindInTail(ts: seq<Task>, id: Option<int>)
    requires IdsIncreasing(ts) && 0 < FindIndex(ts, id)
    ensures FindIndex(ts[1..], id) == FindIndex(ts, id) - 1
    ensures IdsIncreasing(ts[1..])
  {
  }

  /** Cutting position `k` out of `ts` is cutting `k - 1` out of its tail. */
  lemma SpliceTail(ts: seq<Task>, k: int)
    requires 0 < k < |ts|
    ensures ts[..k] + ts[k + 1..] == [ts[0]] + (ts[1..][..k - 1] + ts[1..][k..])
  {
    assert ts[..k] == [ts[0]] + ts[1..][..k - 1];
  }

  /** The first task carries the id: the filter drops it and nothing else. */
  lemma WithoutRemovesHead(ts: seq<Task>, id: Option<int>)
    requires IdsIncreasing(ts) && ts != [] && Matches(ts[0], id)
    ensures Without(ts, id) == ts[1..]
  {
    NoMatchAfter(ts, id);
    WithoutKeepsOthers(ts[1..], id);
  }

  /** With increasing ids, no task after the first can share its id. */
  lemma NoMatchAfter(ts: seq<Task>, id: Option<int>)
    requires IdsIncreasing(ts) && ts != [] && Matches(ts[0], id)
    ensures forall t :: t in ts[1..] ==> !Matches(t, id)
  {
    forall t | t in ts[1..] ensures !Matches(t, id) {
      var j :| 0 <= j < |ts[1..]| && ts[1..][j] == t;
      assert ts[0].id < ts[j + 1].id;
    }
  }

  /** Replacing a task by one with the same id keeps the ids increasing, and
      every task of the new list is the new one or was there before. */
  lemma ReplaceKeepsIncreasing(ts: seq<Task>, k: int, t: Task)
    requires IdsIncreasing(ts) && 0 <= k < |ts| && t.id == ts[k].id
    ensures IdsIncreasing(ts[k := t])
    ensures forall u :: u in ts[k := t] ==> u == t || u in ts
  {
    forall u | u in ts[k := t] ensures u == t || u in ts {
      var j :| 0 <= j < |ts| && ts[k := t][j] == u;
      if j != k { assert u == ts[j]; }
    }
  }

  /** Removing one position keeps the ids increasing, and every task left
      was there before. */
  lemma RemoveKeepsIncreasing(ts: seq<Task>, k: int)
    requires IdsIncreasing(ts) && 0 <= k < |ts|
    ensures IdsIncreasing(ts[..k] + ts[k + 1..])
    ensures forall u :: u in ts[..k] + ts[k + 1..] ==> u in ts
  {
    assert forall u :: u in ts[..k] ==> u in ts;
    assert forall u :: u in ts[k + 1..] ==> u in ts;
    var r := ts[..k] + ts[k + 1..];
    forall i, j | 0 <= i < j < |r| ensures r[i].id < r[j].id {
      var i' := if i < k then i else i + 1;
      var j' := if j < k then j else j + 1;
      assert r[i] == ts[i'] && r[j] == ts[j'];
    }
  }
}
