/** The task editor: how it is filled when it opens, and the guard that
    decides whether and how its contents reach the store when it closes. */
module TaskDetail {
  import opened Wrappers
  import opened TaskModel
  import Persistence

  /** The editor's fields. */
  datatype Editor = Editor(title: string, subtitle: string, createdDate: int)

  /** The editor as it appears: empty fields dated `now` for a new task, or
      the bound task's fields, missing text shown as the empty string. */
  function Open(bound: Option<Task>, now: int): (e: Editor)
    ensures bound.None? ==> e == Editor("", "", now)
    ensures bound.Some? ==> e.createdDate == bound.value.createdDate
    ensures bound.Some? && bound.value.title.Some? ==> e.title == bound.value.title.value
    ensures bound.Some? && bound.value.title.None? ==> e.title == ""
    ensures bound.Some? && bound.value.subtitle.Some? ==> e.subtitle == bound.value.subtitle.value
    ensures bound.Some? && bound.value.subtitle.None? ==> e.subtitle == ""
  {
    match bound
    case None => Editor("", "", now)
    case Some(t) => Editor(t.title.GetOr(""), t.subtitle.GetOr(""), t.createdDate)
  }

  /** Closing the editor can reach the store without trapping. */
  predicate CanClose(s: Store, bound: Option<Task>, e: Editor) {
    e.title != "" ==> Persistence.CanSave(s, if bound.Some? then Some(bound.value.id) else None)
  }

  /** Closing the editor: an empty title leaves the store alone; otherwise
      the contents are saved under the bound task's id and completion flag,
      or as a new, not completed task. */
  function Close(s: Store, bound: Option<Task>, e: Editor): (r: Store)
    requires CanClose(s, bound, e)
    ensures e.title == "" ==> r == s
    ensures e.title != "" && bound.Some? && HasId(s, bound.value.id) ==>
      && |r| == |s|
      && exists i :: 0 <= i < |s| && s[i].id == bound.value.id
           && r[i] == Task(bound.value.id, Some(e.title), Some(e.subtitle), e.createdDate, bound.value.isCompleted)
           && forall j :: 0 <= j < |s| && j != i ==> r[j] == s[j]
    ensures e.title != "" && bound.Some? && !HasId(s, bound.value.id) ==>
      r == s + [Task(bound.value.id, Some(e.title), Some(e.subtitle), e.createdDate, bound.value.isCompleted)]
    ensures e.title != "" && bound.None? ==>
      && |r| == |s| + 1
      && r[..|s|] == s
      && !HasId(s, r[|s|].id)
      && r[|s|].title == Some(e.title)
      && r[|s|].subtitle == Some(e.subtitle)
      && r[|s|].createdDate == e.createdDate
      && !r[|s|].isCompleted
  {
    if e.title == "" then s
    else
      match bound
      case Some(t) => Persistence.SaveTask(s, Some(t.id), e.title, e.subtitle, e.createdDate, t.isCompleted)
      case None => Persistence.SaveTask(s, None, e.title, e.subtitle, e.createdDate, false)
  }

  /** Only the exact empty title is refused: a title of blanks is saved. */
  lemma BlankTitleIsSaved(s: Store, subtitle: string, createdDate: int)
    requires LargestIdOrZero(s) < Int16Max
    ensures |Close(s, None, Editor(" ", subtitle, createdDate))| == |s| + 1
  {
  }

  /** Opening a stored task and closing the editor without edits: a task
      with no title or an empty one is refused, so the store is unchanged;
      otherwise the task is rewritten with its own fields, except that a
      missing subtitle comes back as the empty string. */
  lemma OpenThenClose(s: Store, at: nat, now: int)
    requires at < |s|
    requires UniqueIds(s)
    requires IsInt16(s[at].id)
    ensures s[at].title.GetOr("") == "" ==> Close(s, Some(s[at]), Open(Some(s[at]), now)) == s
    ensures s[at].title.GetOr("") != "" ==>
      Close(s, Some(s[at]), Open(Some(s[at]), now)) == s[at := s[at].(subtitle := Some(s[at].subtitle.GetOr("")))]
  {
    var t := s[at];
    var r := Close(s, Some(t), Open(Some(t), now));
    if t.title.GetOr("") != "" {
      assert HasId(s, t.id);
      var i :| 0 <= i < |s| && s[i].id == t.id
             && r[i] == Task(t.id, t.title, Some(t.subtitle.GetOr("")), t.createdDate, t.isCompleted)
             && forall j :: 0 <= j < |s| && j != i ==> r[j] == s[j];
      assert i == at;
    }
  }

  /** So opening a task that has a subtitle and closing the editor unedited
      leaves the store as it was. */
  lemma OpenThenCloseChangesNothing(s: Store, at: nat, now: int)
    requires at < |s|
    requires UniqueIds(s)
    requires IsInt16(s[at].id)
    requires s[at].subtitle.Some?
    ensures Close(s, Some(s[at]), Open(Some(s[at]), now)) == s
  {
    OpenThenClose(s, at, now);
    assert s[at].(subtitle := Some(s[at].subtitle.GetOr(""))) == s[at];
  }

  /** But a task without a subtitle, such as a seeded item without a
      description, gets the empty subtitle when opened and closed unedited. */
  lemma OpenThenCloseFillsMissingSubtitle(s: Store, at: nat, now: int)
    requires at < |s|
    requires UniqueIds(s)
    requires IsInt16(s[at].id)
    requires s[at].title.GetOr("") != ""
    requires s[at].subtitle.None?
    ensures Close(s, Some(s[at]), Open(Some(s[at]), now)) != s
    ensures Close(s, Some(s[at]), Open(Some(s[at]), now))[at].subtitle == Some("")
  {
    OpenThenClose(s, at, now);
    var r := Close(s, Some(s[at]), Open(Some(s[at]), now));
    assert r[at] != s[at];
  }
}
