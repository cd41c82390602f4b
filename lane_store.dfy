/**
 * The lane store of `task_lib/task_manager.py`. The base directory holds one
 * directory per lane plus `Trash`; each lane directory holds task files. The
 * store is a map from lane name to a map from file name to file text, and
 * `TaskManager` keeps it as a field that its methods reassign.
 */
module LaneStore {
  import opened Wrappers
  import opened Text
  import opened Paths
  import opened Tasks

  const TrashLane := "Trash"

  /** The files of one directory: name to text. */
  type Files = map<string, string>

  /** The lane directories under the base directory: lane name to its files. */
  type Store = map<string, Files>

  /** A name `glob("*.md")` matches. */
  predicate IsMarkdown(name: string) {
    EndsWith(name, MdSuffix)
  }

  /** The names `glob("*.md")` yields in a directory. */
  function MdNames(files: Files): set<string> {
    set n | n in files && IsMarkdown(n)
  }

  /** The text at `lane/name`, if that file exists. */
  function FileAt(s: Store, lane: string, name: string): Option<string> {
    if lane in s && name in s[lane] then Some(s[lane][name]) else None
  }

  /** The files of a lane, none if it does not exist. */
  function LaneFiles(s: Store, lane: string): Files {
    if lane in s then s[lane] else map[]
  }

  // ---------------------------------------------------------------------------
  // elementary file-system steps

  /** `(base / lane).mkdir(exist_ok=True)`: the lane exists afterwards, and nothing else changes. */
  function WithLane(s: Store, lane: string): (r: Store)
    ensures r.Keys == s.Keys + {lane}
    ensures forall L :: L in s ==> r[L] == s[L]
    ensures lane !in s ==> r[lane] == map[]
    ensures lane in s ==> r == s
  {
    if lane in s then s else s[lane := map[]]
  }

  /** Writing `text` to `lane/name`, creating the lane: that file holds `text`, nothing else changes. */
  function WriteFile(s: Store, lane: string, name: string, text: string): (r: Store)
    ensures r.Keys == s.Keys + {lane}
    ensures FileAt(r, lane, name) == Some(text)
    ensures forall L, n :: L != lane || n != name ==> FileAt(r, L, n) == FileAt(s, L, n)
  {
    s[lane := LaneFiles(s, lane)[name := text]]
  }

  /** `Task.to_file(base)`: the text goes to `base/<lane>/<title>.md`, whatever the task's own path says. `TaskServer.SaveServerTask` is the same write for the server's record. */
  function SaveTask(s: Store, t: Task): Store {
    WriteFile(s, t.lane, MdFileName(t.title), t.content)
  }

  /** Saving several tasks, in order. */
  function SaveAll(s: Store, ts: seq<Task>): Store {
    if ts == [] then s else SaveTask(SaveAll(s, ts[..|ts| - 1]), ts[|ts| - 1])
  }

  /** `shutil.move(from/name, to/name)`, creating `to`: the file changes lane, replacing any file of that name. */
  function MoveFile(s: Store, from: string, to: string, name: string): (r: Store)
    requires FileAt(s, from, name).Some?
    ensures r.Keys == s.Keys + {to}
    ensures FileAt(r, to, name) == FileAt(s, from, name)
    ensures from != to ==> FileAt(r, from, name) == None
    ensures forall L, n :: (L != from && L != to) || n != name ==> FileAt(r, L, n) == FileAt(s, L, n)
  {
    var text := s[from][name];
    var removed := s[from := s[from] - {name}];
    removed[to := LaneFiles(removed, to)[name := text]]
  }

  /** `path.unlink()`: the file is gone, nothing else changes. */
  function RemoveFile(s: Store, lane: string, name: string): (r: Store)
    requires FileAt(s, lane, name).Some?
    ensures r.Keys == s.Keys
    ensures FileAt(r, lane, name) == None
    ensures forall L, n :: L != lane || n != name ==> FileAt(r, L, n) == FileAt(s, L, n)
  {
    s[lane := s[lane] - {name}]
  }

  /** A location no task of `ts` is saved to keeps its file. */
  lemma {:induction false} SaveAllUntouched(s: Store, ts: seq<Task>, lane: string, name: string)
    requires forall i :: 0 <= i < |ts| ==> ts[i].lane != lane || MdFileName(ts[i].title) != name
    ensures FileAt(SaveAll(s, ts), lane, name) == FileAt(s, lane, name)
    ensures s.Keys <= SaveAll(s, ts).Keys
    decreases |ts|
  {
    if ts != [] {
      SaveAllUntouched(s, ts[..|ts| - 1], lane, name);
    }
  }

  /** A task saved after every other task saved to the same location ends up in that file. */
  lemma {:induction false} SaveAllLastWins(s: Store, ts: seq<Task>, i: nat)
    requires i < |ts|
    requires forall j :: i < j < |ts| ==> ts[j].lane != ts[i].lane || MdFileName(ts[j].title) != MdFileName(ts[i].title)
    ensures FileAt(SaveAll(s, ts), ts[i].lane, MdFileName(ts[i].title)) == Some(ts[i].content)
    decreases |ts|
  {
    if i < |ts| - 1 {
      SaveAllLastWins(s, ts[..|ts| - 1], i);
    }
  }

  /** Saving one more task of a sequence saves it on top of the others. */
  lemma SaveAllStep(s: Store, ts: seq<Task>, i: nat)
    requires i < |ts|
    ensures SaveAll(s, ts[..i + 1]) == SaveTask(SaveAll(s, ts[..i]), ts[i])
  {
    assert ts[..i + 1][..i] == ts[..i];
  }

  lemma {:induction false} SaveAllAppend(s: Store, ts: seq<Task>, us: seq<Task>)
    ensures SaveAll(s, ts + us) == SaveAll(SaveAll(s, ts), us)
    decreases |us|
  {
    if us == [] {
      assert ts + us == ts;
    } else {
      assert (ts + us)[..|ts + us| - 1] == ts + us[..|us| - 1];
      SaveAllAppend(s, ts, us[..|us| - 1]);
    }
  }

  // ---------------------------------------------------------------------------
  // split_tasks, one task at a time

  /** `shutil.move(task.path, trash / task.path.name)`; a file that is not there is left alone (see `SplitFindsOriginals`). */
  function MoveToTrash(s: Store, lane: string, name: string): Store {
    if FileAt(s, lane, name).Some? then MoveFile(s, lane, TrashLane, name) else s
  }

  /** The body of `split_tasks`' inner loop for one task: save its fragments, then move its file to Trash. */
  function SplitOne(s: Store, t: Task): Store {
    if Contains(t.content, SplitMarker) then
      MoveToTrash(SaveAll(s, Fragments(t)), DirName(t.path.dir), t.path.name)
    else s
  }

  /** The inner loop of `split_tasks` run over `ts`, in order. */
  function SplitAll(s: Store, ts: seq<Task>): Store {
    if ts == [] then s else SplitOne(SplitAll(s, ts[..|ts| - 1]), ts[|ts| - 1])
  }

  /** The file names the fragments of a task are saved under. */
  function FragmentNames(t: Task): set<string> {
    set f | f in Fragments(t) :: MdFileName(f.title)
  }

  /** Whether handling `t` may change the file `lane/name`: its own file, its Trash copy, or one of its fragments. */
  predicate Touches(t: Task, lane: string, name: string) {
    Contains(t.content, SplitMarker)
    && (((lane == TrashLane || lane == DirName(t.path.dir)) && name == t.path.name)
        || (lane == t.lane && name in FragmentNames(t)))
  }

  lemma FragmentLocations(t: Task, lane: string, name: string)
    requires Contains(t.content, SplitMarker)
    requires lane != t.lane || name !in FragmentNames(t)
    ensures forall i :: 0 <= i < |Fragments(t)| ==> Fragments(t)[i].lane != lane || MdFileName(Fragments(t)[i].title) != name
  {
    forall i | 0 <= i < |Fragments(t)|
      ensures Fragments(t)[i].lane != lane || MdFileName(Fragments(t)[i].title) != name
    {
      FragmentFields(t, i);
      assert Fragments(t)[i] in Fragments(t);
    }
  }

  /** Handling a task leaves every file it does not touch as it was. */
  lemma SplitOneUntouched(s: Store, t: Task, lane: string, name: string)
    requires !Touches(t, lane, name)
    ensures FileAt(SplitOne(s, t), lane, name) == FileAt(s, lane, name)
  {
    if Contains(t.content, SplitMarker) {
      FragmentLocations(t, lane, name);
      SaveAllUntouched(s, Fragments(t), lane, name);
    }
  }

  /** Saving the fragments of a task leaves each one in its own file. */
  lemma FragmentSaved(s: Store, t: Task, k: nat)
    requires Contains(t.content, SplitMarker) && k < |Fragments(t)|
    ensures FileAt(SaveAll(s, Fragments(t)), t.lane, MdFileName(Fragments(t)[k].title)) == Some(Fragments(t)[k].content)
  {
    var fs := Fragments(t);
    FragmentFields(t, k);
    forall j | k < j < |fs|
      ensures fs[j].lane != fs[k].lane || MdFileName(fs[j].title) != MdFileName(fs[k].title)
    {
      FragmentTitlesDistinct(t, j, k);
      FragmentFields(t, j);
      if MdFileName(fs[j].title) == MdFileName(fs[k].title) {
        MdFileNameInjective(fs[j].title, fs[k].title);
      }
    }
    SaveAllLastWins(s, fs, k);
  }

  /**
   * Handling a task with a marker, whose file exists in its lane: every
   * fragment is saved in that lane, the file itself is no longer there, and
   * Trash holds what the file held.
   */
  lemma SplitOneMarked(s: Store, t: Task)
    requires Contains(t.content, SplitMarker)
    requires t.lane == DirName(t.path.dir) && t.lane != TrashLane
    requires IsMarkdown(t.path.name) && t.title == Stem(t.path.name)
    requires FileAt(s, t.lane, t.path.name).Some?
    ensures var r := SplitOne(s, t);
      && (forall k :: 0 <= k < |Fragments(t)| ==>
            FileAt(r, t.lane, MdFileName(Fragments(t)[k].title)) == Some(Fragments(t)[k].content))
      && FileAt(r, t.lane, t.path.name) == None
      && FileAt(r, TrashLane, t.path.name) == FileAt(s, t.lane, t.path.name)
  {
    var fs, name := Fragments(t), t.path.name;
    OriginalSurvivesSave(s, t);
    var r := MoveFile(SaveAll(s, fs), t.lane, TrashLane, name);
    forall k | 0 <= k < |fs|
      ensures FileAt(r, t.lane, MdFileName(fs[k].title)) == Some(fs[k].content)
    {
      FragmentSurvivesMove(s, t, k);
    }
  }

  /**
   * Saving the fragments leaves the original file in place, so the step is
   * the move of that file into Trash.
   */
  lemma OriginalSurvivesSave(s: Store, t: Task)
    requires Contains(t.content, SplitMarker)
    requires t.lane == DirName(t.path.dir) && t.lane != TrashLane
    requires IsMarkdown(t.path.name) && t.title == Stem(t.path.name)
    requires FileAt(s, t.lane, t.path.name).Some?
    ensures FileAt(SaveAll(s, Fragments(t)), t.lane, t.path.name) == FileAt(s, t.lane, t.path.name)
    ensures SplitOne(s, t) == MoveFile(SaveAll(s, Fragments(t)), t.lane, TrashLane, t.path.name)
  {
    var fs, name := Fragments(t), t.path.name;
    OriginalNotOverwritten(t);
    SaveAllUntouched(s, fs, t.lane, name);
    SplitOneUnfolds(s, t);
  }

  /** No fragment is saved under the original's file name. */
  lemma OriginalNotOverwritten(t: Task)
    requires Contains(t.content, SplitMarker)
    requires IsMarkdown(t.path.name) && t.title == Stem(t.path.name)
    ensures forall k :: 0 <= k < |Fragments(t)| ==> MdFileName(Fragments(t)[k].title) != t.path.name
  {
    forall k | 0 <= k < |Fragments(t)|
      ensures MdFileName(Fragments(t)[k].title) != t.path.name
    {
      FragmentNameDiffers(t, k);
      FragmentFields(t, k);
    }
  }

  /** A marked task whose file is still there after the save: the step ends by moving that file to Trash. */
  lemma SplitOneUnfolds(s: Store, t: Task)
    requires Contains(t.content, SplitMarker)
    requires FileAt(SaveAll(s, Fragments(t)), DirName(t.path.dir), t.path.name).Some?
    ensures SplitOne(s, t) == MoveFile(SaveAll(s, Fragments(t)), DirName(t.path.dir), TrashLane, t.path.name)
  {
  }

  /** Moving the original into Trash leaves its `k`-th fragment, just saved, in place. */
  lemma FragmentSurvivesMove(s: Store, t: Task, k: nat)
    requires Contains(t.content, SplitMarker) && k < |Fragments(t)|
    requires IsMarkdown(t.path.name) && t.title == Stem(t.path.name)
    requires t.lane != TrashLane && FileAt(SaveAll(s, Fragments(t)), t.lane, t.path.name).Some?
    ensures var r := MoveFile(SaveAll(s, Fragments(t)), t.lane, TrashLane, t.path.name);
      FileAt(r, t.lane, MdFileName(Fragments(t)[k].title)) == Some(Fragments(t)[k].content)
  {
    FragmentSaved(s, t, k);
    FragmentNameDiffers(t, k);
    FragmentFields(t, k);
  }

  lemma {:induction false} SplitAllAppend(s: Store, ts: seq<Task>, us: seq<Task>)
    ensures SplitAll(s, ts + us) == SplitAll(SplitAll(s, ts), us)
    decreases |us|
  {
    if us == [] {
      assert ts + us == ts;
    } else {
      assert (ts + us)[..|ts + us| - 1] == ts + us[..|us| - 1];
      SplitAllAppend(s, ts, us[..|us| - 1]);
    }
  }

  /** A file no task of `ts` touches is the same after `split_tasks` handles them all. */
  lemma {:induction false} SplitAllUntouched(s: Store, ts: seq<Task>, lane: string, name: string)
    requires forall i :: 0 <= i < |ts| ==> !Touches(ts[i], lane, name)
    ensures FileAt(SplitAll(s, ts), lane, name) == FileAt(s, lane, name)
    decreases |ts|
  {
    if ts != [] {
      SplitAllUntouched(s, ts[..|ts| - 1], lane, name);
      SplitOneUntouched(SplitAll(s, ts[..|ts| - 1]), ts[|ts| - 1], lane, name);
    }
  }

  /** A file that exists and is not the file of any task with a marker still exists afterwards. */
  lemma {:induction false} SplitAllKeepsPresent(s: Store, ts: seq<Task>, lane: string, name: string)
    requires FileAt(s, lane, name).Some?
    requires forall i :: 0 <= i < |ts| && Contains(ts[i].content, SplitMarker) ==>
      DirName(ts[i].path.dir) != lane || ts[i].path.name != name
    ensures FileAt(SplitAll(s, ts), lane, name).Some?
    decreases |ts|
  {
    if ts != [] {
      var t := ts[|ts| - 1];
      var mid := SplitAll(s, ts[..|ts| - 1]);
      SplitAllKeepsPresent(s, ts[..|ts| - 1], lane, name);
      if Contains(t.content, SplitMarker) {
        SaveAllKeepsPresent(mid, Fragments(t), lane, name);
      }
    }
  }

  lemma {:induction false} SaveAllKeepsPresent(s: Store, ts: seq<Task>, lane: string, name: string)
    requires FileAt(s, lane, name).Some?
    ensures FileAt(SaveAll(s, ts), lane, name).Some?
    decreases |ts|
  {
    if ts != [] {
      SaveAllKeepsPresent(s, ts[..|ts| - 1], lane, name);
    }
  }

  /**
   * What `split_tasks` does with one task with a marker among several: when
   * no other task touches its file, and no later one its fragments or its
   * name in Trash, its file has gone from its lane to Trash and every fragment
   * is saved in its lane.
   */
  /** The pass over `ts` is the pass over the tasks before `ts[i]`, then `ts[i]`, then the rest. */
  lemma SplitAllAt(s: Store, ts: seq<Task>, i: nat)
    requires i < |ts|
    ensures SplitAll(s, ts) == SplitAll(SplitOne(SplitAll(s, ts[..i]), ts[i]), ts[i + 1..])
  {
    var after := ts[i + 1..];
    calc {
      SplitAll(s, ts);
      { assert ts == ts[..i + 1] + after; }
      SplitAll(s, ts[..i + 1] + after);
      { SplitAllAppend(s, ts[..i + 1], after); }
      SplitAll(SplitAll(s, ts[..i + 1]), after);
      { assert ts[..i + 1][..i] == ts[..i]; }
      SplitAll(SplitOne(SplitAll(s, ts[..i]), ts[i]), after);
    }
  }

  lemma SplitAllMarkedOutcome(s: Store, ts: seq<Task>, i: nat)
    requires i < |ts|
    requires Contains(ts[i].content, SplitMarker)
    requires ts[i].lane == DirName(ts[i].path.dir) && ts[i].lane != TrashLane
    requires IsMarkdown(ts[i].path.name) && ts[i].title == Stem(ts[i].path.name)
    requires FileAt(s, ts[i].lane, ts[i].path.name).Some?
    requires forall j :: 0 <= j < |ts| && j != i ==> !Touches(ts[j], ts[i].lane, ts[i].path.name)
    requires forall j :: i < j < |ts| ==> !Touches(ts[j], TrashLane, ts[i].path.name)
    requires forall j, k :: i < j < |ts| && 0 <= k < |Fragments(ts[i])| ==>
      !Touches(ts[j], ts[i].lane, MdFileName(Fragments(ts[i])[k].title))
    ensures var r := SplitAll(s, ts);
      && FileAt(r, ts[i].lane, ts[i].path.name) == None
      && FileAt(r, TrashLane, ts[i].path.name) == FileAt(s, ts[i].lane, ts[i].path.name)
      && (forall k :: 0 <= k < |Fragments(ts[i])| ==>
            FileAt(r, ts[i].lane, MdFileName(Fragments(ts[i])[k].title)) == Some(Fragments(ts[i])[k].content))
  {
    var t := ts[i];
    var before, after := ts[..i], ts[i + 1..];
    var mid := SplitAll(s, before);
    var m := SplitOne(mid, t);
    SplitAllAt(s, ts, i);
    forall j | 0 <= j < |before|
      ensures !Touches(before[j], t.lane, t.path.name)
    {
      assert before[j] == ts[j];
    }
    forall j | 0 <= j < |after|
      ensures !Touches(after[j], t.lane, t.path.name) && !Touches(after[j], TrashLane, t.path.name)
      ensures forall k :: 0 <= k < |Fragments(t)| ==> !Touches(after[j], t.lane, MdFileName(Fragments(t)[k].title))
    {
      assert after[j] == ts[i + 1 + j];
    }
    SplitAllUntouched(s, before, t.lane, t.path.name);
    SplitOneMarked(mid, t);
    SplitAllUntouched(m, after, t.lane, t.path.name);
    SplitAllUntouched(m, after, TrashLane, t.path.name);
    forall k | 0 <= k < |Fragments(t)|
      ensures FileAt(SplitAll(m, after), t.lane, MdFileName(Fragments(t)[k].title)) == Some(Fragments(t)[k].content)
    {
      SplitAllUntouched(m, after, t.lane, MdFileName(Fragments(t)[k].title));
    }
  }

  // ---------------------------------------------------------------------------
  // get_all_tasks

  /** A lane and its tasks, one entry of the dictionary `get_all_tasks` returns. */
  datatype Lane = Lane(name: string, tasks: seq<Task>)

  /** `tasks` holds one task per name in `names`, each loaded from that file of the lane, and no other. */
  predicate ListsExactly(base: seq<string>, lane: string, files: Files, tasks: seq<Task>, names: set<string>) {
    && (forall i :: 0 <= i < |tasks| ==>
          tasks[i].path.name in names && tasks[i].path.name in files
          && tasks[i] == FileTask(files[tasks[i].path.name], FilePath(base + [lane], tasks[i].path.name)))
    && (forall i, j :: 0 <= i < j < |tasks| ==> tasks[i].path.name != tasks[j].path.name)
    && (forall n :: n in names ==> exists i :: 0 <= i < |tasks| && tasks[i].path.name == n)
  }

  /** `tasks` holds one task per `.md` file of the lane, each loaded from that file, in some order. */
  predicate IsListing(base: seq<string>, lane: string, files: Files, tasks: seq<Task>) {
    ListsExactly(base, lane, files, tasks, MdNames(files))
  }

  /** Loading one more file extends a listing by that file. */
  lemma ListsStep(base: seq<string>, lane: string, files: Files, tasks: seq<Task>, names: set<string>, n: string)
    requires ListsExactly(base, lane, files, tasks, names)
    requires n in files && n !in names
    ensures ListsExactly(base, lane, files, tasks + [FileTask(files[n], FilePath(base + [lane], n))], names + {n})
  {
    var t := FileTask(files[n], FilePath(base + [lane], n));
    var more := tasks + [t];
    assert t.path.name == n;
    forall i | 0 <= i < |more|
      ensures more[i].path.name in names + {n} && more[i].path.name in files
      ensures more[i] == FileTask(files[more[i].path.name], FilePath(base + [lane], more[i].path.name))
    {
      if i < |tasks| {
        assert more[i] == tasks[i];
      }
    }
    forall i, j | 0 <= i < j < |more|
      ensures more[i].path.name != more[j].path.name
    {
      assert more[i] == tasks[i];
      if j < |tasks| {
        assert more[j] == tasks[j];
      }
    }
    forall m | m in names + {n}
      ensures exists i :: 0 <= i < |more| && more[i].path.name == m
    {
      if m == n {
        assert more[|tasks|].path.name == m;
      } else {
        var i :| 0 <= i < |tasks| && tasks[i].path.name == m;
        assert more[i] == tasks[i];
      }
    }
  }

  /** The tasks of a listing of an existing lane other than Trash were loaded from their files in it. */
  lemma ListingLoaded(base: seq<string>, s: Store, lane: string, tasks: seq<Task>)
    requires lane in s && lane != TrashLane
    requires IsListing(base, lane, s[lane], tasks)
    ensures forall j :: 0 <= j < |tasks| ==> Loaded(base, s, tasks[j]) && tasks[j].lane == lane
  {
    assert DirName(base + [lane]) == lane;
  }

  /** Each entry lists a distinct existing lane other than Trash. */
  predicate WellListed(base: seq<string>, s: Store, lanes: seq<Lane>) {
    && (forall i :: 0 <= i < |lanes| ==>
          lanes[i].name in s && lanes[i].name != TrashLane
          && IsListing(base, lanes[i].name, s[lanes[i].name], lanes[i].tasks))
    && (forall i, j :: 0 <= i < j < |lanes| ==> lanes[i].name != lanes[j].name)
  }

  /** What `get_all_tasks` returns: every lane but Trash, empty ones included, with all its tasks. */
  predicate IsSnapshot(base: seq<string>, s: Store, lanes: seq<Lane>) {
    && WellListed(base, s, lanes)
    && (forall L :: L in s && L != TrashLane ==> exists i :: 0 <= i < |lanes| && lanes[i].name == L)
  }

  /** The tasks of all lanes, lane after lane: the order `split_tasks` handles them in. `TaskServer.Flatten` is the same flattening for the server's record. */
  function AllTasks(lanes: seq<Lane>): seq<Task> {
    if lanes == [] then [] else AllTasks(lanes[..|lanes| - 1]) + lanes[|lanes| - 1].tasks
  }

  /** A task as `from_file` loaded it from its own `.md` file in a lane other than Trash. */
  predicate Loaded(base: seq<string>, s: Store, t: Task) {
    && t.lane in s && t.lane != TrashLane
    && t.path == FilePath(base + [t.lane], t.path.name)
    && t.path.name in MdNames(s[t.lane])
    && t == FileTask(s[t.lane][t.path.name], t.path)
  }

  /** Every task of a listing was loaded from its own file, in one of the listed lanes. */
  lemma {:induction false} ListedTasksLoaded(base: seq<string>, s: Store, lanes: seq<Lane>)
    requires WellListed(base, s, lanes)
    ensures forall i :: 0 <= i < |AllTasks(lanes)| ==>
      && Loaded(base, s, AllTasks(lanes)[i])
      && exists l :: 0 <= l < |lanes| && AllTasks(lanes)[i].lane == lanes[l].name
    decreases |lanes|
  {
    if lanes != [] {
      var prefix, last := lanes[..|lanes| - 1], lanes[|lanes| - 1];
      assert WellListed(base, s, prefix);
      ListedTasksLoaded(base, s, prefix);
      var xs, ys, all := AllTasks(prefix), last.tasks, AllTasks(lanes);
      assert all == xs + ys;
      forall i | 0 <= i < |all|
        ensures Loaded(base, s, all[i])
        ensures exists l :: 0 <= l < |lanes| && all[i].lane == lanes[l].name
      {
        if i < |xs| {
          assert all[i] == xs[i];
          var l :| 0 <= l < |prefix| && xs[i].lane == prefix[l].name;
          assert prefix[l] == lanes[l];
        } else {
          ListingLoaded(base, s, last.name, ys);
          assert all[i] == ys[i - |xs|];
          assert all[i].lane == lanes[|lanes| - 1].name;
        }
      }
    }
  }

  /** No two of the tasks come from the same file. */
  predicate DistinctOrigins(ts: seq<Task>) {
    forall i, j :: 0 <= i < j < |ts| ==> ts[i].lane != ts[j].lane || ts[i].path.name != ts[j].path.name
  }

  lemma DistinctOriginsAppend(xs: seq<Task>, ys: seq<Task>, lane: string)
    requires DistinctOrigins(xs)
    requires forall i :: 0 <= i < |xs| ==> xs[i].lane != lane
    requires forall j :: 0 <= j < |ys| ==> ys[j].lane == lane
    requires forall i, j :: 0 <= i < j < |ys| ==> ys[i].path.name != ys[j].path.name
    ensures DistinctOrigins(xs + ys)
  {
    var all := xs + ys;
    forall i, j | 0 <= i < j < |all|
      ensures all[i].lane != all[j].lane || all[i].path.name != all[j].path.name
    {
      if j < |xs| {
        assert all[i] == xs[i] && all[j] == xs[j];
      } else if i < |xs| {
        assert all[i] == xs[i] && all[j] == ys[j - |xs|];
      } else {
        assert all[i] == ys[i - |xs|] && all[j] == ys[j - |xs|];
      }
    }
  }

  /** No two tasks of a listing come from the same file. */
  lemma {:induction false} ListedTasksDistinct(base: seq<string>, s: Store, lanes: seq<Lane>)
    requires WellListed(base, s, lanes)
    ensures DistinctOrigins(AllTasks(lanes))
    decreases |lanes|
  {
    if lanes != [] {
      var prefix, last := lanes[..|lanes| - 1], lanes[|lanes| - 1];
      assert WellListed(base, s, prefix);
      ListedTasksDistinct(base, s, prefix);
      ListedTasksLoaded(base, s, prefix);
      var xs, ys := AllTasks(prefix), last.tasks;
      assert AllTasks(lanes) == xs + ys;
      assert IsListing(base, last.name, s[last.name], ys);
      forall i | 0 <= i < |xs|
        ensures xs[i].lane != last.name
      {
        var l :| 0 <= l < |prefix| && xs[i].lane == prefix[l].name;
        assert prefix[l] == lanes[l];
      }
      ListingLoaded(base, s, last.name, ys);
      DistinctOriginsAppend(xs, ys, last.name);
    }
  }

  /**
   * The pass loses a file when a marked task `x` is listed before a marked
   * task `y` whose file is `x`'s first fragment, `1-<x>.md`: handling `x`
   * writes that fragment over `y`'s file, and handling `y` then moves the
   * fragment into Trash. Neither the fragment nor `y`'s own text is left in
   * the lane.
   */
  lemma SplitMovesEarlierFragment(s: Store, x: Task, y: Task)
    requires Contains(x.content, SplitMarker) && Contains(y.content, SplitMarker)
    requires x.lane == DirName(x.path.dir) && x.lane != TrashLane
    requires IsMarkdown(x.path.name) && x.title == Stem(x.path.name)
    requires FileAt(s, x.lane, x.path.name).Some?
    requires y.lane == x.lane && y.path.dir == x.path.dir
    requires y.title == "1-" + x.title && y.path.name == MdFileName(y.title)
    ensures var r := SplitAll(s, [x, y]);
      && |Fragments(x)| >= 2
      && FileAt(r, x.lane, y.path.name) == None
      && FileAt(r, TrashLane, y.path.name) == Some(Fragments(x)[0].content)
  {
    var m := SplitOne(s, x);
    FirstFragmentOverwrites(s, x);
    assert EndsWith(y.path.name, MdSuffix);
    StemOfMdFileName(y.title);
    SplitOneMarked(m, y);
    SplitAllPair(s, x, y);
  }

  /** Handling `x` writes its first fragment to `1-<x>.md` in its lane. */
  lemma FirstFragmentOverwrites(s: Store, x: Task)
    requires Contains(x.content, SplitMarker)
    requires x.lane == DirName(x.path.dir) && x.lane != TrashLane
    requires IsMarkdown(x.path.name) && x.title == Stem(x.path.name)
    requires FileAt(s, x.lane, x.path.name).Some?
    ensures |Fragments(x)| >= 2
    ensures FileAt(SplitOne(s, x), x.lane, MdFileName("1-" + x.title)) == Some(Fragments(x)[0].content)
  {
    FirstFragmentTitle(x);
    SplitOneMarked(s, x);
  }

  /** The first fragment of a marked task is titled `1-<title>`. */
  lemma FirstFragmentTitle(x: Task)
    requires Contains(x.content, SplitMarker)
    ensures |Fragments(x)| >= 2 && Fragments(x)[0].title == "1-" + x.title
  {
    assert |Fragments(x)| >= 2 by { FragmentCount(x); }
    assert Fragments(x)[0].title == FragmentTitle(1, x.title) by { FragmentsOfSegments(x); }
    assert NatToString(1) == "1";
  }

  /** A pass over two tasks is their two steps in order. */
  lemma SplitAllPair(s: Store, x: Task, y: Task)
    ensures SplitAll(s, [x, y]) == SplitOne(SplitOne(s, x), y)
  {
    assert [x, y][..1] == [x];
    assert SplitAll(s, [x]) == SplitOne(SplitAll(s, []), x);
  }

  /**
   * `shutil.move` in `split_tasks` never meets a missing file: over the
   * tasks of a listing, when a task with a marker is reached its file is
   * still there, after its own fragments are saved too.
   */
  lemma SplitFindsOriginals(base: seq<string>, s: Store, lanes: seq<Lane>, k: nat)
    requires WellListed(base, s, lanes)
    requires k < |AllTasks(lanes)|
    ensures var ts := AllTasks(lanes);
      FileAt(SaveAll(SplitAll(s, ts[..k]), Fragments(ts[k])), DirName(ts[k].path.dir), ts[k].path.name).Some?
  {
    var ts := AllTasks(lanes);
    ListedTasksLoaded(base, s, lanes);
    ListedTasksDistinct(base, s, lanes);
    var t := ts[k];
    assert Loaded(base, s, t);
    assert DirName(t.path.dir) == t.lane;
    forall i | 0 <= i < k
      ensures DirName(ts[..k][i].path.dir) != t.lane || ts[..k][i].path.name != t.path.name
    {
      assert Loaded(base, s, ts[i]);
    }
    SplitAllKeepsPresent(s, ts[..k], t.lane, t.path.name);
    SaveAllKeepsPresent(SplitAll(s, ts[..k]), Fragments(t), t.lane, t.path.name);
  }

  // ---------------------------------------------------------------------------
  // create_tasks_from_csv

  /** One record of the CSV file, by column name. */
  datatype CsvRow = CsvRow(title: string, tagList: string, task: string, lane: string)

  /**
   * The task built from one row: trimmed comma items as tags, and the tag
   * header in front of the text when there are tags, which is always, since
   * a split yields at least one item.
   */
  function RowTask(base: seq<string>, row: CsvRow): (t: Task)
    ensures t.tags == ParseTagItems(row.tagList) && t.content == TagHeader(t.tags) + row.task
    ensures t.lane == row.lane && t.title == row.title
  {
    var tags := ParseTagItems(row.tagList);
    var content := if tags != [] then TagHeader(tags) + row.task else row.task;
    Task(row.title, content, tags, row.lane, FilePath(base + [row.lane], MdFileName(row.title)))
  }

  function RowTasks(base: seq<string>, rows: seq<CsvRow>): (ts: seq<Task>)
    ensures |ts| == |rows|
  {
    seq(|rows|, i requires 0 <= i < |rows| => RowTask(base, rows[i]))
  }

  /** Even a row with an empty tag list gets a tag line, one that names a single empty tag. */
  lemma EmptyTagListRow(base: seq<string>, row: CsvRow)
    requires row.tagList == ""
    ensures RowTask(base, row).content == "tags: \n\n" + row.task
    ensures RowTask(base, row).tags == [""]
  {
    assert SplitOn("", ",") == [""];
    assert ParseTagItems("") == [""];
    assert JoinWith(", ", [""]) == "";
    assert TagHeader([""]) == "tags: " + "\n\n";
    assert "tags: " + "\n\n" == "tags: \n\n";
  }

  /** Reading a row's file back gives the row's tags, as long as the tag list is on one line. */
  lemma RowTagsRoundTrip(base: seq<string>, row: CsvRow)
    requires '\n' !in row.tagList
    ensures TagsOf(RowTask(base, row).content) == RowTask(base, row).tags
  {
    var items := SplitOn(row.tagList, ",");
    var tags := ParseTagItems(row.tagList);
    SplitPiecesAvoid(row.tagList, ",", '\n');
    SplitOnCharPieces(row.tagList, ',');
    forall k | 0 <= k < |tags|
      ensures WellFormedTag(tags[k])
    {
      StripAvoids(items[k], '\n');
      StripAvoids(items[k], ',');
    }
    TagHeaderRoundTrip(tags, row.task);
  }

  /** A row's file ends up holding that row's text unless a later row has the same lane and title. */
  lemma CsvRowSaved(base: seq<string>, s: Store, rows: seq<CsvRow>, i: nat)
    requires i < |rows|
    requires forall j :: i < j < |rows| ==> rows[j].lane != rows[i].lane || rows[j].title != rows[i].title
    ensures FileAt(SaveAll(s, RowTasks(base, rows)), rows[i].lane, MdFileName(rows[i].title))
      == Some(RowTask(base, rows[i]).content)
  {
    var ts := RowTasks(base, rows);
    forall j | i < j < |ts|
      ensures ts[j].lane != ts[i].lane || MdFileName(ts[j].title) != MdFileName(ts[i].title)
    {
      if MdFileName(ts[j].title) == MdFileName(ts[i].title) {
        MdFileNameInjective(ts[j].title, ts[i].title);
      }
    }
    SaveAllLastWins(s, ts, i);
  }

  // ---------------------------------------------------------------------------
  // empty_trash

  /** A directory after every `.md` file in it is unlinked. */
  function WithoutMarkdown(files: Files): (r: Files)
    ensures forall n :: n in r <==> n in files && !IsMarkdown(n)
    ensures forall n :: n in r ==> r[n] == files[n]
  {
    map n | n in files && !IsMarkdown(n) :: files[n]
  }

  /** The count `empty_trash` prints, as written: `.md` files counted after they were removed. */
  function ReportedRemovalsAsWritten(trash: Files): (r: nat)
    ensures r == 0
  {
    assert MdNames(WithoutMarkdown(trash)) == {};
    |MdNames(WithoutMarkdown(trash))|
  }

  /** A Trash holding one `.md` file: the removal takes one file away, and 0 is printed. */
  lemma ReportedRemovalsAlwaysZero(trash: Files)
    requires trash == map["a.md" := ""]
    ensures ReportedRemovalsAsWritten(trash) == 0 && |trash| - |WithoutMarkdown(trash)| == 1
  {
    assert EndsWith("a.md", MdSuffix);
    assert WithoutMarkdown(trash).Keys == {};
  }

  /** The count meant: the `.md` files in Trash before the removal. */
  function RemovedCount(trash: Files): (r: nat)
    ensures r <= |trash|
    ensures r == 0 <==> forall n :: n in trash ==> !IsMarkdown(n)
  {
    var kept := WithoutMarkdown(trash).Keys;
    assert trash.Keys == MdNames(trash) + kept && MdNames(trash) * kept == {};
    |MdNames(trash)|
  }

  /** That count is the number of files the removal takes away. */
  lemma RemovedCountIsRemovals(trash: Files)
    ensures RemovedCount(trash) == |trash| - |WithoutMarkdown(trash)|
  {
    var kept := WithoutMarkdown(trash).Keys;
    assert trash.Keys == MdNames(trash) + kept;
    assert MdNames(trash) * kept == {};
  }

  // ---------------------------------------------------------------------------
  // change_lane

  /**
   * What `change_lane(title, newLane)` does to the store: with no lane but
   * Trash holding `<title>.md`, nothing; otherwise that file moves from one
   * such lane, `from`, to the new lane.
   */
  predicate ChangedLane(before: Store, after: Store, title: string, newLane: string, from: Option<string>)
    ensures ChangedLane(before, after, title, newLane, from) ==>
      after.Keys == before.Keys + (if from.Some? then {newLane} else {})
    ensures ChangedLane(before, after, title, newLane, from) && from.Some? ==>
      FileAt(after, newLane, MdFileName(title)) == FileAt(before, from.value, MdFileName(title))
  {
    match from
    case None =>
      && after == before
      && forall L :: L in before && L != TrashLane ==> MdFileName(title) !in before[L]
    case Some(lane) =>
      && lane != TrashLane
      && FileAt(before, lane, MdFileName(title)).Some?
      && after == MoveFile(before, lane, newLane, MdFileName(title))
  }

  // ---------------------------------------------------------------------------
  // the manager

  class TaskManager {
    /** The base directory, as path components. */
    const base: seq<string>
    /** The lane directories under the base directory and their files. */
    var store: Store

    /** The Trash directory exists. */
    predicate Valid()
      reads this
    {
      TrashLane in store
    }

    /** `TaskManager(base_dir)` over the directories already there: it creates Trash if missing. */
    constructor (base: seq<string>, initial: Store)
      ensures Valid()
      ensures this.base == base && store == WithLane(initial, TrashLane)
    {
      this.base := base;
      store := WithLane(initial, TrashLane);
    }

    /** The loop over `lane_dir.glob("*.md")`: one loaded task per `.md` file, in the order the files are met. */
    method ListLane(lane: string) returns (tasks: seq<Task>)
      requires lane in store
      ensures IsListing(base, lane, store[lane], tasks)
    {
      var files := store[lane];
      var left := MdNames(files);
      tasks := [];
      while left != {}
        invariant left <= MdNames(files)
        invariant ListsExactly(base, lane, files, tasks, MdNames(files) - left)
        decreases left
      {
        var n :| n in left;
        var t := FromFile(files[n], FilePath(base + [lane], n));
        ListsStep(base, lane, files, tasks, MdNames(files) - left, n);
        assert MdNames(files) - (left - {n}) == (MdNames(files) - left) + {n};
        tasks := tasks + [t];
        left := left - {n};
      }
      assert MdNames(files) - left == MdNames(files);
    }

    /** `get_all_tasks`: every lane but Trash, in the order the directories are met. */
    method GetAllTasks() returns (lanes: seq<Lane>)
      ensures IsSnapshot(base, store, lanes)
    {
      var left := store.Keys;
      lanes := [];
      while left != {}
        invariant left <= store.Keys
        invariant WellListed(base, store, lanes)
        invariant forall i :: 0 <= i < |lanes| ==> lanes[i].name !in left
        invariant forall L :: L in store.Keys - left && L != TrashLane ==>
          exists i :: 0 <= i < |lanes| && lanes[i].name == L
        decreases left
      {
        var lane :| lane in left;
        ghost var previous, seen := lanes, store.Keys - left;
        left := left - {lane};
        if lane != TrashLane {
          var tasks := ListLane(lane);
          lanes := lanes + [Lane(lane, tasks)];
        }
        forall L | L in store.Keys - left && L != TrashLane
          ensures exists i :: 0 <= i < |lanes| && lanes[i].name == L
        {
          if L == lane {
            assert lanes[|lanes| - 1].name == L;
          } else {
            assert L in seen;
            var i :| 0 <= i < |previous| && previous[i].name == L;
            assert lanes[i] == previous[i];
          }
        }
      }
      assert store.Keys - left == store.Keys;
    }

    /** `add_lane`: create the lane directory if it is not there. */
    method AddLane(name: string)
      modifies this
      requires Valid()
      ensures Valid()
      ensures store == WithLane(old(store), name)
    {
      if name !in store {
        store := store[name := map[]];
      }
    }

    /** `task.to_file(self.base_dir)` */
    method SaveTaskFile(t: Task)
      modifies this
      requires Valid()
      ensures Valid()
      ensures store == SaveTask(old(store), t)
    {
      store := WriteFile(store, t.lane, MdFileName(t.title), t.content);
    }

    /** `shutil.move(task.path, self.trash_dir / task.path.name)` */
    method MoveIntoTrash(lane: string, name: string)
      modifies this
      requires Valid()
      ensures Valid()
      ensures store == MoveToTrash(old(store), lane, name)
    {
      if FileAt(store, lane, name).Some? {
        store := MoveFile(store, lane, TrashLane, name);
      }
    }

    /** The body of the loop in `split_tasks` for one task. */
    method SplitTask(task: Task)
      modifies this
      requires Valid()
      ensures Valid()
      ensures store == SplitOne(old(store), task)
    {
      if Contains(task.content, SplitMarker) {
        var newTasks := Split(task);
        var k := 0;
        while k < |newTasks|
          invariant 0 <= k <= |newTasks|
          invariant Valid()
          invariant store == SaveAll(old(store), newTasks[..k])
        {
          SaveTaskFile(newTasks[k]);
          SaveAllStep(old(store), newTasks, k);
          k := k + 1;
        }
        assert newTasks[..k] == newTasks;
        MoveIntoTrash(DirName(task.path.dir), task.path.name);
      }
    }

    /** The inner loop of `split_tasks`, over the tasks of one lane. */
    method SplitLaneTasks(tasks: seq<Task>)
      modifies this
      requires Valid()
      ensures Valid()
      ensures store == SplitAll(old(store), tasks)
    {
      var ti := 0;
      while ti < |tasks|
        invariant 0 <= ti <= |tasks|
        invariant Valid()
        invariant store == SplitAll(old(store), tasks[..ti])
      {
        SplitTask(tasks[ti]);
        assert tasks[..ti + 1][..ti] == tasks[..ti];
        ti := ti + 1;
      }
      assert tasks[..ti] == tasks;
    }

    /**
     * `split_tasks`: list every lane, then split every task with a marker,
     * saving its fragments and moving its file to Trash. The listing taken
     * at the start is returned so that its order can be named.
     */
    method SplitTasks() returns (ghost snapshot: seq<Lane>)
      modifies this
      requires Valid()
      ensures Valid()
      ensures IsSnapshot(base, old(store), snapshot)
      ensures store == SplitAll(old(store), AllTasks(snapshot))
    {
      var lanes := GetAllTasks();
      snapshot := lanes;
      var li := 0;
      while li < |lanes|
        invariant 0 <= li <= |lanes|
        invariant Valid()
        invariant store == SplitAll(old(store), AllTasks(lanes[..li]))
      {
        SplitLaneTasks(lanes[li].tasks);
        SplitAllAppend(old(store), AllTasks(lanes[..li]), lanes[li].tasks);
        assert lanes[..li + 1][..li] == lanes[..li];
        li := li + 1;
      }
      assert lanes[..li] == lanes;
    }

    /** `create_tasks_from_csv`, with the rows already read: save each row's task, in order. */
    method CreateTasksFromCsv(rows: seq<CsvRow>)
      modifies this
      requires Valid()
      ensures Valid()
      ensures store == SaveAll(old(store), RowTasks(base, rows))
    {
      ghost var ts := RowTasks(base, rows);
      var i := 0;
      while i < |rows|
        invariant 0 <= i <= |rows|
        invariant Valid()
        invariant store == SaveAll(old(store), ts[..i])
      {
        SaveTaskFile(RowTask(base, rows[i]));
        SaveAllStep(old(store), ts, i);
        i := i + 1;
      }
      assert ts[..i] == ts;
    }

    /**
     * `empty_trash`: unlink every `.md` file in Trash and nothing else. It
     * returns the number of files removed, which is what the message means
     * to report.
     */
    method EmptyTrash() returns (removed: nat)
      modifies this
      requires Valid()
      ensures Valid()
      ensures store == old(store)[TrashLane := WithoutMarkdown(old(store)[TrashLane])]
      ensures removed == RemovedCount(old(store)[TrashLane])
    {
      var trash := store[TrashLane];
      var left := MdNames(trash);
      removed := 0;
      while left != {}
        invariant left <= MdNames(trash)
        invariant TrashLane in store && store == old(store)[TrashLane := store[TrashLane]]
        invariant forall n :: n in store[TrashLane] <==> n in trash && (n in left || !IsMarkdown(n))
        invariant forall n :: n in store[TrashLane] ==> store[TrashLane][n] == trash[n]
        invariant removed + |left| == |MdNames(trash)|
        decreases left
      {
        var n :| n in left;
        store := store[TrashLane := store[TrashLane] - {n}];
        left := left - {n};
        removed := removed + 1;
      }
      assert store[TrashLane] == WithoutMarkdown(trash);
    }

    /**
     * `change_lane`: look through the lanes other than Trash for `<title>.md`
     * and move the first one found to the new lane, creating that lane. The
     * lane it came from is returned so that it can be named.
     */
    method ChangeLane(title: string, newLane: string) returns (ghost from: Option<string>)
      modifies this
      requires Valid()
      ensures Valid()
      ensures ChangedLane(old(store), store, title, newLane, from)
    {
      var name := MdFileName(title);
      var left := store.Keys;
      from := None;
      while left != {}
        invariant left <= old(store).Keys && store == old(store) && from.None?
        invariant forall L :: L in old(store) && L !in left && L != TrashLane ==> name !in old(store)[L]
        decreases left
      {
        var lane :| lane in left;
        left := left - {lane};
        if lane != TrashLane && name in store[lane] {
          store := MoveFile(store, lane, newLane, name);
          from := Some(lane);
          return;
        }
      }
    }
  }
}
