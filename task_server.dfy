/**
 * The tool functions of `mcp_task_service/server.py`, over the dictionary
 * `get_all_tasks` returns (lane name to task list, in iteration order) and
 * the lane store. The server's task record carries an optional due date
 * besides the fields of `task_lib/task.py`; `datetime.strptime(s, '%Y-%m-%d')`
 * is a parameter that yields a date or nothing.
 */
module TaskServer {
  import opened Wrappers
  import opened Text
  import opened Paths
  import opened Tasks
  import opened LaneStore

  datatype Date = Date(year: int, month: int, day: int)

  /** `datetime.strptime(s, '%Y-%m-%d')`: a date, or `None` where it raises `ValueError`. */
  type DateParser = string -> Option<Date>

  datatype ServerTask = ServerTask(
    title: string, content: string, tags: seq<string>, dueDate: Option<Date>, lane: string, path: FilePath)

  /** One entry of the dictionary `get_all_tasks` returns. */
  datatype LaneTasks = LaneTasks(name: string, tasks: seq<ServerTask>)

  /** That dictionary, in its iteration order. */
  type Board = seq<LaneTasks>

  datatype ServerError = TaskNotFound | MissingFields | InvalidDueDate

  /** The text `to_file` writes, at `<lane>/<title>.md`: `LaneStore.SaveTask` for the server's record, which also carries a due date. */
  function SaveServerTask(s: Store, t: ServerTask): Store {
    WriteFile(s, t.lane, MdFileName(t.title), t.content)
  }

  // ---------------------------------------------------------------------------
  // add_task_from_json

  /** The decoded JSON object: each field present or not. */
  datatype TaskRecord = TaskRecord(
    title: Option<string>, content: Option<string>, lane: Option<string>,
    tags: Option<seq<string>>, dueDate: Option<string>)

  /**
   * `add_task_from_json` up to saving: title, content and lane are required,
   * checked before the due date; a non-empty due date must parse; tags
   * default to none; the task is placed at `<base>/<lane>/<title>.md`.
   */
  function AddTaskFromJson(base: seq<string>, rec: TaskRecord, parse: DateParser): (r: Result<ServerTask, ServerError>)
    ensures r == Failure(MissingFields) <==> rec.title.None? || rec.content.None? || rec.lane.None?
    ensures r == Failure(InvalidDueDate) <==>
      && rec.title.Some? && rec.content.Some? && rec.lane.Some?
      && rec.dueDate.Some? && rec.dueDate.value != "" && parse(rec.dueDate.value).None?
    ensures r != Failure(TaskNotFound)
    ensures r.Success? ==>
      && r.value.title == rec.title.value && r.value.content == rec.content.value && r.value.lane == rec.lane.value
      && r.value.tags == rec.tags.GetOr([])
      && r.value.path == FilePath(base + [rec.lane.value], MdFileName(rec.title.value))
      && (r.value.dueDate.Some? <==> rec.dueDate.Some? && rec.dueDate.value != "")
  {
    if rec.title.None? || rec.content.None? || rec.lane.None? then Failure(MissingFields)
    else
      var due :=
        if rec.dueDate.Some? && rec.dueDate.value != "" then
          match parse(rec.dueDate.value)
          case None => Failure(InvalidDueDate)
          case Some(d) => Success(Some(d))
        else Success(None);
      match due
      case Failure(e) => Failure(e)
      case Success(d) =>
        var title, lane := rec.title.value, rec.lane.value;
        Success(ServerTask(title, rec.content.value, rec.tags.GetOr([]), d, lane, FilePath(base + [lane], MdFileName(title))))
  }

  /** A task added under a non-empty title is found again by `from_file` with the same title, lane and text. */
  lemma AddedTaskReloads(base: seq<string>, s: Store, rec: TaskRecord, parse: DateParser)
    requires AddTaskFromJson(base, rec, parse).Success?
    requires rec.title.value != ""
    ensures var t := AddTaskFromJson(base, rec, parse).value;
      var saved := SaveServerTask(s, t);
      && FileAt(saved, t.lane, t.path.name) == Some(t.content)
      && var loaded := FileTask(t.content, t.path);
      loaded.title == t.title && loaded.lane == t.lane && loaded.content == t.content
  {
    var t := AddTaskFromJson(base, rec, parse).value;
    StemOfMdFileName(t.title);
    assert DirName(base + [t.lane]) == t.lane;
  }

  // ---------------------------------------------------------------------------
  // finding a task by title

  /** The task at `(l, k)` is titled `title`, and none before it in lane then task order is. */
  predicate IsFirstMatch(all: Board, title: string, l: nat, k: nat) {
    && l < |all| && k < |all[l].tasks| && all[l].tasks[k].title == title
    && (forall i, j :: 0 <= i < l && 0 <= j < |all[i].tasks| ==> all[i].tasks[j].title != title)
    && (forall j :: 0 <= j < k ==> all[l].tasks[j].title != title)
  }

  predicate NoMatch(all: Board, title: string) {
    forall i, j :: 0 <= i < |all| && 0 <= j < |all[i].tasks| ==> all[i].tasks[j].title != title
  }

  /** The search loops of `move_task_to_lane` and `update_task`: the first task with that title, if any. */
  method FindTask(all: Board, title: string) returns (found: Option<(nat, nat)>)
    ensures found.None? <==> NoMatch(all, title)
    ensures found.Some? ==> IsFirstMatch(all, title, found.value.0, found.value.1)
  {
    var li := 0;
    while li < |all|
      invariant 0 <= li <= |all|
      invariant forall i, j :: 0 <= i < li && 0 <= j < |all[i].tasks| ==> all[i].tasks[j].title != title
    {
      var tasks := all[li].tasks;
      var ti := 0;
      while ti < |tasks|
        invariant 0 <= ti <= |tasks|
        invariant forall j :: 0 <= j < ti ==> tasks[j].title != title
      {
        if tasks[ti].title == title {
          return Some((li, ti));
        }
        ti := ti + 1;
      }
      li := li + 1;
    }
    return None;
  }

  // ---------------------------------------------------------------------------
  // move_task_to_lane and list_lanes

  /**
   * `move_task_to_lane`: with no task of that title in `all`, an error and
   * no change; otherwise success naming the lane where it was found, and the
   * store changed as `change_lane` changes it.
   */
  method MoveTaskToLane(tm: TaskManager, all: Board, title: string, newLane: string)
    returns (r: Result<string, ServerError>, ghost at: Option<(nat, nat)>, ghost from: Option<string>)
    modifies tm
    requires tm.Valid()
    ensures tm.Valid()
    ensures at.None? <==> NoMatch(all, title)
    ensures at.None? ==> r == Failure(TaskNotFound) && tm.store == old(tm.store)
    ensures at.Some? ==>
      && IsFirstMatch(all, title, at.value.0, at.value.1)
      && r == Success(all[at.value.0].name)
      && ChangedLane(old(tm.store), tm.store, title, newLane, from)
  {
    var found := FindTask(all, title);
    at := found;
    if found.None? {
      return Failure(TaskNotFound), at, None;
    }
    var currentLane := all[found.value.0].name;
    from := tm.ChangeLane(title, newLane);
    r := Success(currentLane);
  }

  datatype LaneInfo = LaneInfo(name: string, taskCount: nat)

  /** The object `list_lanes` encodes. */
  datatype LanesReport = LanesReport(lanes: seq<LaneInfo>, totalLanes: nat)

  /** `list_lanes`: one entry per lane, in order, with the length of its task list, and the number of lanes. */
  function ListLanes(all: Board): (r: LanesReport)
    ensures |r.lanes| == |all| && r.totalLanes == |all|
    ensures forall i :: 0 <= i < |all| ==> r.lanes[i].name == all[i].name && r.lanes[i].taskCount == |all[i].tasks|
  {
    LanesReport(seq(|all|, i requires 0 <= i < |all| => LaneInfo(all[i].name, |all[i].tasks|)), |all|)
  }

  /** The tasks of all lanes, lane after lane: `LaneStore.AllTasks` for the server's record. */
  function Flatten(all: Board): seq<ServerTask> {
    if all == [] then [] else Flatten(all[..|all| - 1]) + all[|all| - 1].tasks
  }

  function TotalCount(lanes: seq<LaneInfo>): nat {
    if lanes == [] then 0 else TotalCount(lanes[..|lanes| - 1]) + lanes[|lanes| - 1].taskCount
  }

  /** The lane counts `list_lanes` reports add up to the number of tasks. */
  lemma {:induction false} ListLanesCountsEveryTask(all: Board)
    ensures TotalCount(ListLanes(all).lanes) == |Flatten(all)|
    decreases |all|
  {
    if all != [] {
      var prefix := all[..|all| - 1];
      ListLanesCountsEveryTask(prefix);
      assert ListLanes(all).lanes[..|all| - 1] == ListLanes(prefix).lanes;
    }
  }

  // ---------------------------------------------------------------------------
  // list_tasks

  /** The index of the first lane with this name. */
  function LaneIndex(all: Board, name: string): (r: Option<nat>)
    ensures r.Some? ==> r.value < |all| && all[r.value].name == name
    ensures r.Some? ==> forall i :: 0 <= i < r.value ==> all[i].name != name
    ensures r.None? ==> forall i :: 0 <= i < |all| ==> all[i].name != name
  {
    if all == [] then None
    else if all[0].name == name then Some(0)
    else match LaneIndex(all[1..], name)
      case None => None
      case Some(i) => Some(i + 1)
  }

  /** The lanes `list_tasks` looks at: only the named one when a name is given and known, all of them otherwise. */
  function LanesToCheck(all: Board, lane: Option<string>): (r: Board)
    ensures lane.Some? && lane.value != "" && LaneIndex(all, lane.value).Some? ==>
      r == [all[LaneIndex(all, lane.value).value]] && r[0].name == lane.value
    ensures lane.None? || lane.value == "" || (forall i :: 0 <= i < |all| ==> all[i].name != lane.value) ==> r == all
  {
    if lane.Some? && lane.value != "" && LaneIndex(all, lane.value).Some? then [all[LaneIndex(all, lane.value).value]]
    else all
  }

  /** The tag filter of `list_tasks`: no filter, or the task has tags and the tag is one of them. */
  predicate PassesTagFilter(t: ServerTask, tag: Option<string>) {
    tag.None? || tag.value == "" || (t.tags != [] && tag.value in t.tags)
  }

  function FilterByTag(ts: seq<ServerTask>, tag: Option<string>): seq<ServerTask> {
    if ts == [] then []
    else FilterByTag(ts[..|ts| - 1], tag) + (if PassesTagFilter(ts[|ts| - 1], tag) then [ts[|ts| - 1]] else [])
  }

  /** The tasks `list_tasks` reports, in order. */
  function Listed(all: Board, lane: Option<string>, tag: Option<string>): seq<ServerTask> {
    FilterByTag(Flatten(LanesToCheck(all, lane)), tag)
  }

  lemma FilterByTagStep(ts: seq<ServerTask>, t: ServerTask, tag: Option<string>)
    ensures FilterByTag(ts + [t], tag) == FilterByTag(ts, tag) + (if PassesTagFilter(t, tag) then [t] else [])
  {
    assert (ts + [t])[..|ts|] == ts;
  }

  /** The filter keeps exactly the tasks that pass it. */
  lemma {:induction false} FilterByTagMembers(ts: seq<ServerTask>, tag: Option<string>, t: ServerTask)
    ensures t in FilterByTag(ts, tag) <==> t in ts && PassesTagFilter(t, tag)
    decreases |ts|
  {
    if ts != [] {
      FilterByTagMembers(ts[..|ts| - 1], tag, t);
      assert ts == ts[..|ts| - 1] + [ts[|ts| - 1]];
    }
  }

  lemma {:induction false} FlattenMembers(all: Board, t: ServerTask)
    ensures t in Flatten(all) <==> exists i :: 0 <= i < |all| && t in all[i].tasks
    decreases |all|
  {
    if all != [] {
      var prefix := all[..|all| - 1];
      FlattenMembers(prefix, t);
      if t in Flatten(prefix) {
        var i :| 0 <= i < |prefix| && t in prefix[i].tasks;
        assert all[i] == prefix[i];
      }
      if exists i :: 0 <= i < |all| && t in all[i].tasks {
        var i :| 0 <= i < |all| && t in all[i].tasks;
        if i < |all| - 1 {
          assert all[i] == prefix[i];
        }
      }
    }
  }

  /**
   * A task is listed exactly when it is in a lane that is looked at and it
   * passes the tag filter.
   */
  lemma ListedIff(all: Board, lane: Option<string>, tag: Option<string>, t: ServerTask)
    ensures t in Listed(all, lane, tag) <==>
      (exists i :: 0 <= i < |LanesToCheck(all, lane)| && t in LanesToCheck(all, lane)[i].tasks)
      && PassesTagFilter(t, tag)
  {
    FilterByTagMembers(Flatten(LanesToCheck(all, lane)), tag, t);
    FlattenMembers(LanesToCheck(all, lane), t);
  }

  /** The inner loop of `list_tasks`: append the tasks of one lane that pass the tag filter. */
  method FilterLane(listed: seq<ServerTask>, ghost done: seq<ServerTask>, tasks: seq<ServerTask>, tag: Option<string>)
    returns (extended: seq<ServerTask>)
    requires listed == FilterByTag(done, tag)
    ensures extended == FilterByTag(done + tasks, tag)
  {
    extended := listed;
    var ti := 0;
    assert done + tasks[..ti] == done;
    while ti < |tasks|
      invariant 0 <= ti <= |tasks|
      invariant extended == FilterByTag(done + tasks[..ti], tag)
    {
      var task := tasks[ti];
      if !(tag.Some? && tag.value != "" && (task.tags == [] || tag.value !in task.tags)) {
        extended := extended + [task];
      }
      assert done + tasks[..ti + 1] == (done + tasks[..ti]) + [task];
      FilterByTagStep(done + tasks[..ti], task, tag);
      ti := ti + 1;
    }
    assert tasks[..ti] == tasks;
  }

  /** `list_tasks`: the tasks listed, in order, and their count. */
  method ListTasks(all: Board, lane: Option<string>, tag: Option<string>) returns (listed: seq<ServerTask>, count: nat)
    ensures listed == Listed(all, lane, tag)
    ensures count == |listed|
  {
    var lanes := LanesToCheck(all, lane);
    listed := [];
    var li := 0;
    while li < |lanes|
      invariant 0 <= li <= |lanes|
      invariant listed == FilterByTag(Flatten(lanes[..li]), tag)
    {
      listed := FilterLane(listed, Flatten(lanes[..li]), lanes[li].tasks, tag);
      assert lanes[..li + 1][..li] == lanes[..li];
      li := li + 1;
    }
    assert lanes[..li] == lanes;
    count := |listed|;
  }

  // ---------------------------------------------------------------------------
  // update_task

  /** The stripped items of a split, empty ones dropped, in order. */
  function NonEmptyStripped(items: seq<string>): (r: seq<string>)
    ensures forall k :: 0 <= k < |r| ==> r[k] != "" && IsTrimmed(r[k])
  {
    if items == [] then []
    else
      var x := Strip(items[0]);
      var rest := NonEmptyStripped(items[1..]);
      if x != "" then [x] + rest else rest
  }

  /** `[t.strip() for t in tags.split(',') if t.strip()]` */
  function ParseTagArgument(s: string): (tags: seq<string>)
    ensures forall k :: 0 <= k < |tags| ==> tags[k] != "" && IsTrimmed(tags[k]) && ',' !in tags[k]
  {
    SplitOnCharPieces(s, ',');
    NonEmptyStrippedAvoids(SplitOn(s, ","), ',');
    NonEmptyStripped(SplitOn(s, ","))
  }

  lemma {:induction false} NonEmptyStrippedAvoids(items: seq<string>, c: char)
    requires forall k :: 0 <= k < |items| ==> c !in items[k]
    ensures forall k :: 0 <= k < |NonEmptyStripped(items)| ==> c !in NonEmptyStripped(items)[k]
    decreases |items|
  {
    if items != [] {
      StripAvoids(items[0], c);
      NonEmptyStrippedAvoids(items[1..], c);
    }
  }

  /** Items that strip to non-empty tags, one for one, give those tags. */
  lemma {:induction false} StripsToTags(items: seq<string>, tags: seq<string>)
    requires |items| == |tags|
    requires forall k :: 0 <= k < |items| ==> Strip(items[k]) == tags[k] && tags[k] != ""
    ensures NonEmptyStripped(items) == tags
    decreases |items|
  {
    if items != [] {
      StripsToTags(items[1..], tags[1..]);
      assert tags == [tags[0]] + tags[1..];
    }
  }

  /** Splitting `", ".join(tags)` at commas gives the first tag, then each other tag after one space. */
  lemma JoinedTagPieces(tags: seq<string>)
    requires tags != []
    requires forall k :: 0 <= k < |tags| ==> ',' !in tags[k]
    ensures var pieces := SplitOn(JoinWith(", ", tags), ",");
      && |pieces| == |tags| && pieces[0] == tags[0]
      && forall k :: 1 <= k < |tags| ==> pieces[k] == " " + tags[k]
  {
    var joined := JoinWith(", ", tags);
    var spaced := Spaced(tags);
    SpacedJoin(tags);
    forall k | 0 <= k < |spaced|
      ensures ',' !in spaced[k]
    {
      assert spaced[k] == " " + tags[k];
    }
    SplitJoinChar(spaced, ',');
    var pieces := SplitOn(joined, ",");
    var s := " " + joined;
    assert s[1..] == joined;
    assert SplitOn(s, ",") == [[' '] + pieces[0]] + pieces[1..];
    assert [' '] + pieces[0] == " " + tags[0];
    assert pieces[0] == ([' '] + pieces[0])[1..];
  }

  /** Tags written as `", ".join(tags)` read back as the same list, when each is non-empty, trimmed and comma-free. */
  lemma TagArgumentRoundTrip(tags: seq<string>)
    requires forall k :: 0 <= k < |tags| ==> tags[k] != "" && IsTrimmed(tags[k]) && ',' !in tags[k]
    ensures ParseTagArgument(JoinWith(", ", tags)) == tags
  {
    if tags == [] {
      assert SplitOn("", ",") == [""];
      assert Strip("") == "";
    } else {
      JoinedTagPieces(tags);
      var pieces := SplitOn(JoinWith(", ", tags), ",");
      forall k | 0 <= k < |pieces|
        ensures Strip(pieces[k]) == tags[k]
      {
        if k > 0 {
          StripLeadingSpace(' ', tags[k]);
        }
      }
      StripsToTags(pieces, tags);
    }
  }

  /**
   * The field updates of `update_task` on the found task: an absent argument
   * leaves its field alone, a new title also renames the file in the same
   * directory, an empty due date clears the date, and a due date that does
   * not parse is an error.
   */
  function ApplyUpdate(t: ServerTask, content: Option<string>, tags: Option<string>, newTitle: Option<string>,
                       dueDate: Option<string>, parse: DateParser): (r: Result<ServerTask, ServerError>)
    ensures r.Failure? <==> dueDate.Some? && dueDate.value != "" && parse(dueDate.value).None?
    ensures r.Failure? ==> r.error == InvalidDueDate
    ensures r.Success? ==>
      && r.value.content == content.GetOr(t.content)
      && r.value.tags == (if tags.Some? then ParseTagArgument(tags.value) else t.tags)
      && r.value.title == newTitle.GetOr(t.title)
      && r.value.path == (if newTitle.Some? then FilePath(t.path.dir, MdFileName(newTitle.value)) else t.path)
      && r.value.dueDate == (if dueDate.None? then t.dueDate else if dueDate.value == "" then None else parse(dueDate.value))
      && r.value.lane == t.lane
  {
    var t1 := if content.Some? then t.(content := content.value) else t;
    var t2 := if tags.Some? then t1.(tags := ParseTagArgument(tags.value)) else t1;
    var t3 := if newTitle.Some? then t2.(title := newTitle.value, path := FilePath(t2.path.dir, MdFileName(newTitle.value))) else t2;
    if dueDate.None? then Success(t3)
    else if dueDate.value == "" then Success(t3.(dueDate := None))
    else match parse(dueDate.value)
      case None => Failure(InvalidDueDate)
      case Some(d) => Success(t3.(dueDate := Some(d)))
  }

  /** An update with no arguments changes nothing. */
  lemma EmptyUpdateIsIdentity(t: ServerTask, parse: DateParser)
    ensures ApplyUpdate(t, None, None, None, None, parse) == Success(t)
  {
  }

  /** The renamed file keeps the directory and its stem is the new title, when that title is non-empty. */
  lemma RenamedPath(t: ServerTask, newTitle: string, parse: DateParser)
    requires newTitle != ""
    ensures var u := ApplyUpdate(t, None, None, Some(newTitle), None, parse);
      u.Success? && u.value.path.dir == t.path.dir && Stem(u.value.path.name) == newTitle
  {
    StemOfMdFileName(newTitle);
  }

  /**
   * The files after `update_task` saves the updated task, as written: the
   * old file is unlinked whenever a non-empty new title was given and the
   * old file exists, even when it is the file just saved.
   */
  function FilesAfterUpdateAsWritten(s: Store, prev: ServerTask, updated: ServerTask, newTitle: Option<string>): (r: Store)
    ensures newTitle.Some? && newTitle.value != "" ==> FileAt(r, DirName(prev.path.dir), prev.path.name) == None
    ensures newTitle.None? || newTitle == Some("") ==> r == SaveServerTask(s, updated)
  {
    var saved := SaveServerTask(s, updated);
    var oldLane, oldName := DirName(prev.path.dir), prev.path.name;
    if newTitle.Some? && newTitle.value != "" && FileAt(saved, oldLane, oldName).Some? then RemoveFile(saved, oldLane, oldName)
    else saved
  }

  /**
   * Renaming a task to its own title deletes it: the save writes the file
   * and the unlink then removes that same file.
   */
  lemma SameTitleUpdateDeletesTask(base: seq<string>, s: Store, t: ServerTask, parse: DateParser)
    requires t.title != "" && t.path == FilePath(base + [t.lane], MdFileName(t.title))
    ensures var u := ApplyUpdate(t, None, None, Some(t.title), None, parse);
      && u.Success?
      && FileAt(FilesAfterUpdateAsWritten(s, t, u.value, Some(t.title)), t.lane, MdFileName(t.title)) == None
  {
    assert DirName(base + [t.lane]) == t.lane;
  }

  /** The files after `update_task`, unlinking the old file only when it is not the one just saved. */
  function FilesAfterUpdate(s: Store, prev: ServerTask, updated: ServerTask, newTitle: Option<string>): (r: Store)
    ensures FileAt(r, updated.lane, MdFileName(updated.title)) == Some(updated.content)
  {
    var saved := SaveServerTask(s, updated);
    var oldLane, oldName := DirName(prev.path.dir), prev.path.name;
    if newTitle.Some? && newTitle.value != "" && FileAt(saved, oldLane, oldName).Some?
       && (oldLane != updated.lane || oldName != MdFileName(updated.title))
    then RemoveFile(saved, oldLane, oldName)
    else saved
  }

  /**
   * After an update the task's text is in `<lane>/<title>.md`; after a
   * rename to another file the old file is gone; every other file is as it
   * was.
   */
  lemma UpdateKeepsTask(s: Store, prev: ServerTask, updated: ServerTask, newTitle: Option<string>)
    requires newTitle.Some? && newTitle.value != ""
    requires DirName(prev.path.dir) != updated.lane || prev.path.name != MdFileName(updated.title)
    ensures var r := FilesAfterUpdate(s, prev, updated, newTitle);
      && FileAt(r, updated.lane, MdFileName(updated.title)) == Some(updated.content)
      && FileAt(r, DirName(prev.path.dir), prev.path.name) == None
      && forall L, n :: (L != updated.lane || n != MdFileName(updated.title)) && (L != DirName(prev.path.dir) || n != prev.path.name)
           ==> FileAt(r, L, n) == FileAt(s, L, n)
  {
  }

  /**
   * `update_task`: with no task of that title in `all`, an error and no
   * change; with an invalid due date, an error and no change; otherwise
   * the updated task is saved and, after a rename, the old file removed.
   */
  method UpdateTask(tm: TaskManager, all: Board, title: string, content: Option<string>, tags: Option<string>,
                    newTitle: Option<string>, dueDate: Option<string>, parse: DateParser)
    returns (r: Result<ServerTask, ServerError>, ghost at: Option<(nat, nat)>)
    modifies tm
    requires tm.Valid()
    ensures tm.Valid()
    ensures at.None? <==> NoMatch(all, title)
    ensures at.None? ==> r == Failure(TaskNotFound) && tm.store == old(tm.store)
    ensures at.Some? ==>
      && IsFirstMatch(all, title, at.value.0, at.value.1)
      && r == ApplyUpdate(all[at.value.0].tasks[at.value.1], content, tags, newTitle, dueDate, parse)
      && tm.store == if r.Success? then FilesAfterUpdate(old(tm.store), all[at.value.0].tasks[at.value.1], r.value, newTitle)
                     else old(tm.store)
  {
    var found := FindTask(all, title);
    at := found;
    if found.None? {
      return Failure(TaskNotFound), at;
    }
    var task := all[found.value.0].tasks[found.value.1];
    r := ApplyUpdate(task, content, tags, newTitle, dueDate, parse);
    if r.Success? {
      tm.store := FilesAfterUpdate(tm.store, task, r.value, newTitle);
    }
  }

  /** `add_task_from_json` with the save: an error leaves the store alone. */
  method AddTask(tm: TaskManager, rec: TaskRecord, parse: DateParser) returns (r: Result<ServerTask, ServerError>)
    modifies tm
    requires tm.Valid()
    ensures tm.Valid()
    ensures r == AddTaskFromJson(tm.base, rec, parse)
    ensures tm.store == if r.Success? then SaveServerTask(old(tm.store), r.value) else old(tm.store)
  {
    r := AddTaskFromJson(tm.base, rec, parse);
    if r.Success? {
      tm.store := SaveServerTask(tm.store, r.value);
    }
  }
}
