/** The persisted `Task` entity, the decoded seed record `Todo`, and the store
    as a flat table of tasks. */
module TaskModel {
  import opened Wrappers

  /** Task ids are stored as 16-bit signed integers. */
  const Int16Min: int := -32768
  const Int16Max: int := 32767

  predicate IsInt16(x: int) {
    Int16Min <= x <= Int16Max
  }

  /** One row of the task table. Timestamps are plain integers. */
  datatype Task = Task(
    id: int,
    title: Option<string>,
    subtitle: Option<string>,
    createdDate: int,
    isCompleted: bool)

  /** One item of the seed payload, already decoded from JSON. */
  datatype Todo = Todo(
    id: int,
    todo: string,
    completed: bool,
    userId: int,
    description: Option<string>,
    createdAt: Option<string>)

  /** The table, in insertion order. Core Data keeps no order: the fetches
      for display sort by date, and the lookups by id take whichever task
      comes first, which matters only when ids repeat. */
  type Store = seq<Task>

  predicate HasId(s: Store, id: int) {
    exists i :: 0 <= i < |s| && s[i].id == id
  }

  /** No two stored tasks share an id. */
  predicate UniqueIds(s: Store) {
    forall i, j :: 0 <= i < |s| && 0 <= j < |s| && i != j ==> s[i].id != s[j].id
  }

  /** The first stored task carrying `id`, if any: the result of a fetch
      with the predicate `id == %d`, taking its first element. */
  function IndexOfId(s: Store, id: int): (r: Option<nat>)
    ensures r.Some? ==> r.value < |s| && s[r.value].id == id
    ensures r.Some? ==> forall j :: 0 <= j < r.value ==> s[j].id != id
    ensures r.None? <==> !HasId(s, id)
    decreases |s|
  {
    if |s| == 0 then None
    else if s[0].id == id then Some(0)
    else
      match IndexOfId(s[1..], id)
      case None =>
        assert forall j :: 1 <= j < |s| ==> s[j] == s[1..][j - 1];
        None
      case Some(k) => Some(k + 1)
  }

  /** The id of the first task when sorting by id descending, or 0 when the
      table is empty. */
  function LargestIdOrZero(s: Store): (m: int)
    ensures forall i :: 0 <= i < |s| ==> s[i].id <= m
    ensures |s| == 0 ==> m == 0
    ensures |s| > 0 ==> HasId(s, m)
    decreases |s|
  {
    if |s| == 0 then 0
    else if |s| == 1 then s[0].id
    else
      var m := LargestIdOrZero(s[1..]);
      assert forall j :: 1 <= j < |s| ==> s[j] == s[1..][j - 1];
      if s[0].id >= m then s[0].id else m
  }

  /** A store that extends `s` keeps every id of `s`. */
  lemma PrefixKeepsIds(s: Store, r: Store, id: int)
    requires |s| <= |r| && r[..|s|] == s
    requires HasId(s, id)
    ensures HasId(r, id)
  {
    var i :| 0 <= i < |s| && s[i].id == id;
    assert r[i] == r[..|s|][i];
  }
}
