/** The persistence controller: upsert, delete, toggle, the one-time seed
    import and the sorted, filtered fetch, each as one atomic step on an
    immutable store value. */
module Persistence {
  import opened Wrappers
  import opened TaskModel
  import Sequences

  // ----- saveTask -----

  /** The id a freshly inserted task carries before one is assigned: the
      attribute's default, taken to be 0. */
  const DefaultId: int := 0

  /** The freshly inserted task as the max-id fetch sees it: still blank,
      with the default id. */
  const Pending: Task := Task(DefaultId, None, None, 0, false)

  /** The id allocated to a task saved without one. The new task is inserted
      before the id-descending fetch runs, so the fetch sees it too, still
      carrying the default id: the result is one more than the largest of
      the stored ids and the default. */
  function NextId(s: Store): (id: int)
    ensures forall i :: 0 <= i < |s| ==> s[i].id < id
    ensures DefaultId < id
    ensures !HasId(s, id)
    ensures id - 1 == DefaultId || HasId(s, id - 1)
    ensures (forall i :: 0 <= i < |s| ==> s[i].id <= DefaultId) ==> id == DefaultId + 1
    ensures LargestIdOrZero(s) < Int16Max ==> id <= Int16Max
  {
    var fetched := s + [Pending];
    var m := LargestIdOrZero(fetched);
    assert forall i :: 0 <= i < |s| ==> s[i] == fetched[i];
    assert fetched[|s|] == Pending;
    var k :| 0 <= k < |fetched| && fetched[k].id == m;
    assert k < |s| ==> s[k].id == m;
    m + 1
  }

  /** saveTask runs without trapping: a given id is a 16-bit value, and an
      allocated id still fits in 16 bits. */
  predicate CanSave(s: Store, id: Option<int>) {
    match id
    case Some(k) => IsInt16(k)
    case None => LargestIdOrZero(s) < Int16Max
  }

  /** Upsert by id. A given id that is stored overwrites that task's fields
      in place; a given id that is not stored inserts a task with it; no id
      inserts a task with a newly allocated id. */
  function SaveTask(s: Store, id: Option<int>, title: string, subtitle: string,
                    createdDate: int, isCompleted: bool): (r: Store)
    requires CanSave(s, id)
    ensures id.Some? && HasId(s, id.value) ==>
      && |r| == |s|
      && exists i :: 0 <= i < |s| && s[i].id == id.value
           && r[i] == Task(id.value, Some(title), Some(subtitle), createdDate, isCompleted)
           && forall j :: 0 <= j < |s| && j != i ==> r[j] == s[j]
    ensures id.Some? && !HasId(s, id.value) ==>
      r == s + [Task(id.value, Some(title), Some(subtitle), createdDate, isCompleted)]
    ensures id.None? ==>
      && |r| == |s| + 1
      && r[..|s|] == s
      && r[|s|] == Task(r[|s|].id, Some(title), Some(subtitle), createdDate, isCompleted)
      && IsInt16(r[|s|].id)
      && (forall i :: 0 <= i < |s| ==> s[i].id < r[|s|].id)
      && (r[|s|].id == DefaultId + 1 || HasId(s, r[|s|].id - 1))
      && ((forall i :: 0 <= i < |s| ==> s[i].id <= DefaultId) ==> r[|s|].id == DefaultId + 1)
  {
    var saved := Task(0, Some(title), Some(subtitle), createdDate, isCompleted);
    match id
    case Some(k) =>
      (match IndexOfId(s, k)
       case Some(i) => s[i := saved.(id := k)]
       case None => s + [saved.(id := k)])
    case None => s + [saved.(id := NextId(s))]
  }

  lemma SaveTaskKeepsIdsUnique(s: Store, id: Option<int>, title: string, subtitle: string,
                               createdDate: int, isCompleted: bool)
    requires CanSave(s, id)
    requires UniqueIds(s)
    ensures UniqueIds(SaveTask(s, id, title, subtitle, createdDate, isCompleted))
  {
    var r := SaveTask(s, id, title, subtitle, createdDate, isCompleted);
    if id.Some? && HasId(s, id.value) {
      var i :| 0 <= i < |s| && s[i].id == id.value
           && r[i] == Task(id.value, Some(title), Some(subtitle), createdDate, isCompleted)
           && forall j :: 0 <= j < |s| && j != i ==> r[j] == s[j];
      assert forall j :: 0 <= j < |s| ==> r[j].id == s[j].id;
    } else {
      assert r[..|s|] == s;
      assert forall j :: 0 <= j < |s| ==> r[j] == s[j];
      assert !HasId(s, r[|s|].id);
    }
  }

  // ----- deleteTask and toggleCompletion -----
  // Both take a reference to a stored task object; the model names it by its
  // position `at` in the table.

  /** Removes exactly the task at `at`. */
  function DeleteTask(s: Store, at: nat): (r: Store)
    requires at < |s|
    ensures |r| == |s| - 1
    ensures multiset(r) == multiset(s) - multiset{s[at]}
    ensures forall j :: 0 <= j < |s| && j != at ==> s[j] in r
    ensures |s| == 1 ==> r == []
  {
    assert s == s[..at] + [s[at]] + s[at + 1..];
    var r := s[..at] + s[at + 1..];
    assert forall j :: 0 <= j < at ==> r[j] == s[j];
    assert forall j :: at < j < |s| ==> r[j - 1] == s[j];
    r
  }

  /** With unique ids, the deleted task's id is gone and ids stay unique. */
  lemma DeleteTaskRemovesId(s: Store, at: nat)
    requires at < |s|
    requires UniqueIds(s)
    ensures !HasId(DeleteTask(s, at), s[at].id)
    ensures UniqueIds(DeleteTask(s, at))
  {
    var r := DeleteTask(s, at);
    assert forall k :: 0 <= k < |r| ==> r[k] == if k < at then s[k] else s[k + 1];
  }

  /** Flips the completion flag of the task at `at`. */
  function ToggleCompletion(s: Store, at: nat): (r: Store)
    requires at < |s|
    ensures |r| == |s|
    ensures r[at].isCompleted == !s[at].isCompleted
    ensures r[at].(isCompleted := s[at].isCompleted) == s[at]
    ensures forall j :: 0 <= j < |s| && j != at ==> r[j] == s[j]
  {
    s[at := s[at].(isCompleted := !s[at].isCompleted)]
  }

  lemma ToggleTwiceRestores(s: Store, at: nat)
    requires at < |s|
    ensures ToggleCompletion(ToggleCompletion(s, at), at) == s
  {
  }

  lemma ToggleKeepsIdsUnique(s: Store, at: nat)
    requires at < |s|
    requires UniqueIds(s)
    ensures UniqueIds(ToggleCompletion(s, at))
  {
    var r := ToggleCompletion(s, at);
    assert forall j :: 0 <= j < |s| ==> r[j].id == s[j].id;
  }

  // ----- saveTasks: the seed import -----

  /** The creation date of a seeded task: the parsed `createdAt`, or `now`
      when it is missing or does not parse. */
  function SeedDate(todo: Todo, parse: string -> Option<int>, now: int): int {
    match todo.createdAt
    case Some(text) => parse(text).GetOr(now)
    case None => now
  }

  /** The task a seed item becomes. */
  function SeedTask(todo: Todo, parse: string -> Option<int>, now: int): Task {
    Task(todo.id, Some(todo.todo), todo.description, SeedDate(todo, parse, now), todo.completed)
  }

  function InsertIfAbsent(s: Store, todo: Todo, parse: string -> Option<int>, now: int): Store {
    if HasId(s, todo.id) then s else s + [SeedTask(todo, parse, now)]
  }

  /** `t` is what some seed item of `todos` whose id is absent from `s`
      becomes. */
  predicate IsSeedOf(t: Task, s: Store, todos: seq<Todo>, parse: string -> Option<int>, now: int) {
    exists i :: 0 <= i < |todos| && !HasId(s, todos[i].id) && t == SeedTask(todos[i], parse, now)
  }

  /** Every seed id fits the 16-bit id attribute. */
  predicate SeedIdsFit(todos: seq<Todo>) {
    forall i :: 0 <= i < |todos| ==> IsInt16(todos[i].id)
  }

  /** Inserts, item by item, every seed whose id is not yet stored. Items
      inserted earlier in the same batch count as stored. */
  function SaveTasks(s: Store, todos: seq<Todo>, parse: string -> Option<int>, now: int): (r: Store)
    requires SeedIdsFit(todos)
    ensures |s| <= |r| <= |s| + |todos|
    ensures r[..|s|] == s
    ensures forall i :: 0 <= i < |todos| ==> HasId(r, todos[i].id)
    ensures forall k :: |s| <= k < |r| ==> IsSeedOf(r[k], s, todos, parse, now)
    ensures UniqueIds(s) ==> UniqueIds(r)
    decreases |todos|
  {
    if |todos| == 0 then s
    else
      var s1 := InsertIfAbsent(s, todos[0], parse, now);
      var rest := todos[1..];
      var r := SaveTasks(s1, rest, parse, now);
      SaveTasksStep(s, s1, r, todos, rest, parse, now);
      r
  }

  /** The inductive step of SaveTasks: what one insertion plus the facts
      about the rest of the batch give for the whole batch. */
  lemma SaveTasksStep(s: Store, s1: Store, r: Store, todos: seq<Todo>, rest: seq<Todo>,
                      parse: string -> Option<int>, now: int)
    requires |todos| > 0 && rest == todos[1..]
    requires s1 == InsertIfAbsent(s, todos[0], parse, now)
    requires |s1| <= |r| && r[..|s1|] == s1
    requires forall i :: 0 <= i < |rest| ==> HasId(r, rest[i].id)
    requires forall k :: |s1| <= k < |r| ==> IsSeedOf(r[k], s1, rest, parse, now)
    requires UniqueIds(s1) ==> UniqueIds(r)
    ensures r[..|s|] == s
    ensures forall i :: 0 <= i < |todos| ==> HasId(r, todos[i].id)
    ensures forall k :: |s| <= k < |r| ==> IsSeedOf(r[k], s, todos, parse, now)
    ensures UniqueIds(s) ==> UniqueIds(r)
  {
    assert s1[..|s|] == s;
    assert r[..|s|] == s1[..|s|];
    assert HasId(s1, todos[0].id) by {
      if !HasId(s, todos[0].id) {
        assert s1[|s|].id == todos[0].id;
      }
    }
    PrefixKeepsIds(s1, r, todos[0].id);
    forall i | 1 <= i < |todos|
      ensures HasId(r, todos[i].id)
    {
      assert todos[i] == rest[i - 1];
    }
    forall id | HasId(s, id)
      ensures HasId(s1, id)
    {
      PrefixKeepsIds(s, s1, id);
    }
    forall k | |s| <= k < |r|
      ensures IsSeedOf(r[k], s, todos, parse, now)
    {
      if k < |s1| {
        assert r[k] == s1[k];
        assert !HasId(s, todos[0].id) && r[k] == SeedTask(todos[0], parse, now);
      } else {
        var i :| 0 <= i < |rest| && !HasId(s1, rest[i].id) && r[k] == SeedTask(rest[i], parse, now);
        assert rest[i] == todos[i + 1];
      }
    }
    if UniqueIds(s) && !HasId(s, todos[0].id) {
      assert forall j :: 0 <= j < |s| ==> s1[j] == s[j];
    }
  }

  /** Every seed whose id is neither stored nor carried by an earlier seed
      is inserted. */
  lemma {:induction false} SaveTasksInsertsEveryNewId(s: Store, todos: seq<Todo>, parse: string -> Option<int>, now: int, i: nat)
    requires SeedIdsFit(todos)
    requires i < |todos|
    requires !HasId(s, todos[i].id)
    requires forall j :: 0 <= j < i ==> todos[j].id != todos[i].id
    ensures SeedTask(todos[i], parse, now) in SaveTasks(s, todos, parse, now)[|s|..]
    decreases |todos|
  {
    var s1 := InsertIfAbsent(s, todos[0], parse, now);
    var rest := todos[1..];
    var r := SaveTasks(s1, rest, parse, now);
    assert SaveTasks(s, todos, parse, now) == r;
    var t := SeedTask(todos[i], parse, now);
    if i == 0 {
      InsertedSeedSurvives(s, s1, r, t);
    } else {
      assert rest[i - 1] == todos[i];
      InsertKeepsOtherIdsAbsent(s, todos[0], parse, now, todos[i].id);
      SaveTasksInsertsEveryNewId(s1, rest, parse, now, i - 1);
      SuffixWidens(s, s1, r, t);
    }
  }

  lemma InsertedSeedSurvives(s: Store, s1: Store, r: Store, t: Task)
    requires s1 == s + [t]
    requires |s1| <= |r| && r[..|s1|] == s1
    ensures t in r[|s|..]
  {
    assert r[|s|] == r[..|s1|][|s|];
    assert r[|s|..][0] == r[|s|];
  }

  lemma InsertKeepsOtherIdsAbsent(s: Store, todo: Todo, parse: string -> Option<int>, now: int, id: int)
    requires !HasId(s, id) && id != todo.id
    ensures !HasId(InsertIfAbsent(s, todo, parse, now), id)
  {
  }

  lemma SuffixWidens(s: Store, s1: Store, r: Store, t: Task)
    requires |s| <= |s1| <= |r|
    requires t in r[|s1|..]
    ensures t in r[|s|..]
  {
    var k :| 0 <= k < |r[|s1|..]| && r[|s1|..][k] == t;
    assert r[|s|..][k + |s1| - |s|] == t;
  }

  /** A payload whose ids are all stored changes nothing. */
  lemma {:induction false} SaveTasksAllPresent(s: Store, todos: seq<Todo>, parse: string -> Option<int>, now: int)
    requires SeedIdsFit(todos)
    requires forall i :: 0 <= i < |todos| ==> HasId(s, todos[i].id)
    ensures SaveTasks(s, todos, parse, now) == s
    decreases |todos|
  {
    if |todos| > 0 {
      assert InsertIfAbsent(s, todos[0], parse, now) == s;
      forall i | 0 <= i < |todos| - 1
        ensures HasId(s, todos[1..][i].id)
      {
        assert todos[1..][i] == todos[i + 1];
      }
      SaveTasksAllPresent(s, todos[1..], parse, now);
    }
  }

  /** Importing the same payload a second time changes nothing, whatever
      the clock reads the second time. */
  lemma SaveTasksIdempotent(s: Store, todos: seq<Todo>, parse: string -> Option<int>, now1: int, now2: int)
    requires SeedIdsFit(todos)
    ensures SaveTasks(SaveTasks(s, todos, parse, now1), todos, parse, now2) == SaveTasks(s, todos, parse, now1)
  {
    SaveTasksAllPresent(SaveTasks(s, todos, parse, now1), todos, parse, now2);
  }

  /** An empty store seeded with one item holds exactly that item's task. */
  lemma SeedOneItemIntoEmptyStore(todo: Todo, parse: string -> Option<int>, now: int, created: int)
    requires IsInt16(todo.id)
    requires todo.createdAt.Some? && parse(todo.createdAt.value) == Some(created)
    ensures SaveTasks([], [todo], parse, now)
         == [Task(todo.id, Some(todo.todo), todo.description, created, todo.completed)]
  {
    assert [todo][1..] == [];
  }

  // ----- checkAndLoadData -----

  /** The start-up check: a store with no tasks is seeded from the payload;
      `None` stands for a failed request or an undecodable response. */
  function CheckAndLoadData(s: Store, payload: Option<seq<Todo>>, parse: string -> Option<int>, now: int): (r: Store)
    requires payload.Some? ==> SeedIdsFit(payload.value)
    ensures |s| > 0 ==> r == s
    ensures payload.None? ==> r == s
    ensures |s| == 0 && payload.Some? ==>
      && UniqueIds(r)
      && |r| <= |payload.value|
      && (forall i :: 0 <= i < |payload.value| ==> HasId(r, payload.value[i].id))
      && (forall k :: 0 <= k < |r| ==>
            exists i :: 0 <= i < |payload.value| && r[k] == SeedTask(payload.value[i], parse, now))
  {
    if |s| == 0 && payload.Some? then SaveTasks(s, payload.value, parse, now) else s
  }

  // ----- fetchTasks -----

  predicate SortedByCreatedDesc(ts: seq<Task>) {
    forall i, j :: 0 <= i < j < |ts| ==> ts[i].createdDate >= ts[j].createdDate
  }

  function InsertByCreatedDesc(t: Task, ts: seq<Task>): (r: seq<Task>)
    requires SortedByCreatedDesc(ts)
    ensures SortedByCreatedDesc(r)
    ensures multiset(r) == multiset(ts) + multiset{t}
    decreases |ts|
  {
    if |ts| == 0 || t.createdDate >= ts[0].createdDate then
      ConsKeepsSorted(t, ts);
      [t] + ts
    else
      var rest := InsertByCreatedDesc(t, ts[1..]);
      assert ts == [ts[0]] + ts[1..];
      NewestBoundsRest(t, ts, rest);
      ConsKeepsSorted(ts[0], rest);
      [ts[0]] + rest
  }

  /** Putting a task no older than any of a sorted list in front keeps it
      sorted. */
  lemma ConsKeepsSorted(a: Task, ts: seq<Task>)
    requires SortedByCreatedDesc(ts)
    requires forall j :: 0 <= j < |ts| ==> a.createdDate >= ts[j].createdDate
    ensures SortedByCreatedDesc([a] + ts)
  {
    var r := [a] + ts;
    forall i, j | 0 <= i < j < |r|
      ensures r[i].createdDate >= r[j].createdDate
    {
      assert r[j] == ts[j - 1];
      if i > 0 {
        assert r[i] == ts[i - 1];
      }
    }
  }

  lemma NewestBoundsRest(t: Task, ts: seq<Task>, rest: seq<Task>)
    requires |ts| > 0 && SortedByCreatedDesc(ts)
    requires t.createdDate < ts[0].createdDate
    requires multiset(rest) == multiset(ts[1..]) + multiset{t}
    ensures forall j :: 0 <= j < |rest| ==> ts[0].createdDate >= rest[j].createdDate
  {
    forall j | 0 <= j < |rest|
      ensures ts[0].createdDate >= rest[j].createdDate
    {
      assert rest[j] in multiset(rest);
      if rest[j] != t {
        assert rest[j] in multiset(ts[1..]);
        var k :| 0 <= k < |ts[1..]| && ts[1..][k] == rest[j];
        assert ts[k + 1] == rest[j];
      }
    }
  }

  /** The tasks reordered by creation date, newest first. */
  function SortByCreatedDesc(ts: seq<Task>): (r: seq<Task>)
    ensures SortedByCreatedDesc(r)
    ensures multiset(r) == multiset(ts)
    decreases |ts|
  {
    if |ts| == 0 then []
    else
      assert ts == [ts[0]] + ts[1..];
      InsertByCreatedDesc(ts[0], SortByCreatedDesc(ts[1..]))
  }

  /** Every character mapped through `fold`. */
  function FoldChars(text: string, fold: char -> char): (r: string) {
    seq(|text|, i requires 0 <= i < |text| => fold(text[i]))
  }

  /** The title predicate `title CONTAINS[cd] query`, with `fold` standing
      for the case- and diacritic-insensitive comparison. A task without a
      title never matches. */
  predicate TitleContains(title: Option<string>, query: string, fold: char -> char) {
    title.Some? && Sequences.Contains(FoldChars(title.value, fold), FoldChars(query, fold))
  }

  /** All tasks newest first; a non-empty query keeps only the tasks whose
      title contains it. */
  function FetchTasks(s: Store, query: string, fold: char -> char): (r: seq<Task>)
    ensures SortedByCreatedDesc(r)
    ensures query == "" ==> multiset(r) == multiset(s)
    ensures query != "" ==>
      forall t :: multiset(r)[t] == if TitleContains(t.title, query, fold) then multiset(s)[t] else 0
  {
    var matching := if query == "" then s else Sequences.Filter(s, (t: Task) => TitleContains(t.title, query, fold));
    SortByCreatedDesc(matching)
  }

  // ----- any sequence of store operations -----

  datatype Op =
    | Save(id: Option<int>, title: string, subtitle: string, createdDate: int, isCompleted: bool)
    | Delete(at: nat)
    | Toggle(at: nat)
    | Load(payload: Option<seq<Todo>>, now: int)

  /** The operation can run on `s`: its handle names a stored task and its
      ids fit in 16 bits. */
  predicate Enabled(s: Store, op: Op) {
    match op
    case Save(id, _, _, _, _) => CanSave(s, id)
    case Delete(at) => at < |s|
    case Toggle(at) => at < |s|
    case Load(payload, _) => payload.Some? ==> SeedIdsFit(payload.value)
  }

  function Step(s: Store, op: Op, parse: string -> Option<int>): Store
    requires Enabled(s, op)
  {
    match op
    case Save(id, title, subtitle, createdDate, isCompleted) => SaveTask(s, id, title, subtitle, createdDate, isCompleted)
    case Delete(at) => DeleteTask(s, at)
    case Toggle(at) => ToggleCompletion(s, at)
    case Load(payload, now) => CheckAndLoadData(s, payload, parse, now)
  }

  /** Every operation of `ops` is enabled when its turn comes. */
  predicate Runs(s: Store, ops: seq<Op>, parse: string -> Option<int>)
    decreases |ops|
  {
    |ops| == 0 || (Enabled(s, ops[0]) && Runs(Step(s, ops[0], parse), ops[1..], parse))
  }

  function Run(s: Store, ops: seq<Op>, parse: string -> Option<int>): Store
    requires Runs(s, ops, parse)
    decreases |ops|
  {
    if |ops| == 0 then s else Run(Step(s, ops[0], parse), ops[1..], parse)
  }

  lemma StepKeepsIdsUnique(s: Store, op: Op, parse: string -> Option<int>)
    requires Enabled(s, op)
    requires UniqueIds(s)
    ensures UniqueIds(Step(s, op, parse))
  {
    match op
    case Save(id, title, subtitle, createdDate, isCompleted) =>
      SaveTaskKeepsIdsUnique(s, id, title, subtitle, createdDate, isCompleted);
    case Delete(at) =>
      DeleteTaskRemovesId(s, at);
    case Toggle(at) =>
      ToggleKeepsIdsUnique(s, at);
    case Load(payload, now) =>
  }

  /** No sequence of saves, deletes, toggles and loads ever stores two tasks
      with the same id. */
  lemma {:induction false} RunKeepsIdsUnique(s: Store, ops: seq<Op>, parse: string -> Option<int>)
    requires Runs(s, ops, parse)
    requires UniqueIds(s)
    ensures UniqueIds(Run(s, ops, parse))
    decreases |ops|
  {
    if |ops| > 0 {
      StepKeepsIdsUnique(s, ops[0], parse);
      RunKeepsIdsUnique(Step(s, ops[0], parse), ops[1..], parse);
    }
  }
}
