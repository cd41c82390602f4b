# Task lanes: a Dafny model of the task text format and the lane store

This project models the core of a small task-board tool. Tasks are Markdown
files grouped into lane directories under a base directory, and one lane,
`Trash`, holds archived tasks. The model covers four pieces:

- **The task record** (`task_lib/task.py`, module `Tasks`):
  - a task is read from a file: the title is the file stem, the lane is the parent directory, and the tags come from the first line starting with `tags:`;
  - a task is written to `<base>/<lane>/<title>.md`;
  - a task is split at every `[[split]]` marker into numbered fragments `1-<title>`, `2-<title>`, … Each fragment gets the stripped segment as its content, with the original tag line put back in front when there are tags.
- **The lane store** (`task_lib/task_manager.py`, module `LaneStore`):
  - the class `TaskManager` owns the directory tree, modelled as a map from lane name to a map from file name to file text;
  - it lists every lane's tasks, creates lanes and splits every marked task in place, moving the original to `Trash`;
  - it imports CSV rows, empties `Trash` and moves a task file to another lane.
- **The tool endpoints** (`mcp_task_service/server.py`, module `TaskServer`):
  - add a task from a JSON-like record, move a task, and list lanes;
  - list tasks filtered by lane and tag;
  - update a task's content, tags, title or due date.
- **The tag migration utility** (`bin/tag-utility.py`, module `TagUtility`):
  - rewrites each `tags: a, b, c` line as one `[tag:…]` line per tag, keeping only every other tag as the loop does;
  - strips every other line;
  - makes a `.bak` copy of a file before migrating it.

The supporting modules are:

- `Text`: Python's `str.strip`, `split`, `join`, `replace`, `startswith` and decimal formatting, with `isspace` as the whitespace set;
- `Paths`: `pathlib`'s `stem` and parent name, and `os.path.join` with two arguments;
- `Wrappers`: `Option` and `Result`.

File system effects are functions over the store map. Parts of the source that
change state step by step are methods with loops:

- `Task.from_file`'s tag scan and `Task.split`;
- the `TaskManager` methods;
- the server's lookup loops;
- the migration's line loop.

Each such method is proved equal to a specification function. Where the
directory order is chosen freely, the method is proved to satisfy a
specification predicate instead: `IsListing` for `ListLane`, `IsSnapshot` for
`GetAllTasks`, `ChangedLane` for `ChangeLane`, and `IsFirstMatch`/`NoMatch`
for `FindTask`. The properties of those specifications are then proved as lemmas.

The repository's tests expect a different task format. `tests/test_task.py:122-164`
expects `[tag:…]` and `[due:…]` annotation lines, and `tests/test_task.py:290`
expects an added `multi-story feature` tag on every fragment. The
`task_lib/task.py` modelled here does otherwise, and the model follows `task.py`:

- a single `tags: a, b` line, with no `[tag:…]` or `[due:…]` annotation lines;
- the content keeps the tag line;
- fragments get the original tags verbatim, with no added marker tag.

Three inputs are parameters:

- the due-date parser (`datetime.strptime(..., "%Y-%m-%d")`) is `parse: string -> Option<Date>`;
- the directory iteration order is a nondeterministic choice, and the methods return the order they picked as a ghost value;
- the snapshot of lanes the server tools search is passed in as `all`.

## Model

| member | source | states |
|---|---|---|
| Text.Strip | task_lib/task.py:56 | `strip()` leaves no whitespace at either end, never lengthens the text, and is the identity on text already trimmed |
| Text.StripCutsOnlySpace | task_lib/task.py:56 | `strip()` returns the infix of the text between a run of white space at the front and one at the back: only white space is removed, and the text in between survives |
| Text.SplitPiecesFree | task_lib/task.py:48 | no piece of `split(sep)` contains the separator |
| Text.JoinSplit | task_lib/task.py:48 | joining the pieces of `split(sep)` with `sep` gives back the original string |
| Text.SplitCount | task_lib/task.py:48 | `split(sep)` has exactly `count(sep) + 1` pieces |
| Text.RemoveAllIsSplitJoin | task_lib/task.py:50 | `replace(p, "")` is the concatenation of the pieces of `split(p)`: exactly the occurrences `split` finds are removed |
| Text.RemoveAllAbsent | task_lib/task.py:50 | `replace(p, "")` is the identity when `p` does not occur |
| Text.DecimalRoundTrip | task_lib/task.py:55 | the decimal text of the fragment number reads back as the same number |
| Text.NatToStringInjective | task_lib/task.py:55 | different fragment numbers give different decimal texts |
| Paths.StemOfMdFileName | task_lib/task.py:17 | the stem of `<title>.md` is the title, for a non-empty title |
| Paths.StemOfEmptyTitle | task_lib/task.py:17 | the stem of the file `.md` is `.md` itself, not the empty title |
| Tasks.ParseTagItems | task_lib/task.py:24 | the tag list from a `tags:` line has at least one item, and every item is stripped |
| Tasks.FirstTagLine | task_lib/task.py:22-25 | the index found is the first line starting with `tags:`; none is found only when no line starts with it |
| Tasks.FirstTagLineAt | task_lib/task.py:22-25 | a scan that stops at the first line starting with `tags:`, or reaches the end, gives that line or nothing |
| Tasks.TagsOf | task_lib/task.py:21-25 | the tags are empty when no line starts with `tags:`, and otherwise are the items of the first such line |
| Tasks.FromFile | task_lib/task.py:14-33 | the scanning loop with `break` produces exactly the task `FileTask` describes: the title is the stem, the lane is the parent name, the text is kept whole and the tags are those of `TagsOf` |
| Tasks.SavedTaskReloads | task_lib/task.py:35-41 | saving a task and loading it back from the path it was saved at gives the same title, content and lane; the tags become those read from the content |
| Tasks.Split | task_lib/task.py:43-71 | the fragment loop returns exactly the fragments `Fragments` specifies, in order |
| Tasks.FragmentsOfSegments | task_lib/task.py:54-69 | unfolds the definition of `Fragments` for marked content: fragment `k` is built from segment `k` and numbered `k+1` |
| Tasks.FragmentCount | task_lib/task.py:45-48 | content with `n` markers gives `n+1` fragments; content without a marker gives the task itself, alone |
| Tasks.SegmentsOfContent | task_lib/task.py:48-50 | the segments come from the marker split of the content, with the first one's tag line removed; joining the pieces with the marker restores the content |
| Tasks.FragmentFields | task_lib/task.py:55-67 | fragment `k` has the title `<k+1>-<title>`, the original tags and lane, a path in the same directory, and the stripped segment as content, with the tag header in front when there are tags |
| Tasks.FragmentTitlesDistinct | task_lib/task.py:55 | two different fragments of one task never share a title or a file name |
| Tasks.FragmentNameDiffers | task_lib/task.py:55-67 | no fragment's file name equals the original task's file name |
| Tasks.TagHeaderRoundTrip | task_lib/task.py:57-60 | reading the tags back from a content written with the tag header gives the same tags, when the tags are stripped, non-empty and free of commas and line breaks |
| Tasks.FragmentTagsRoundTrip | task_lib/task.py:57-60 | every fragment of a tagged task reads back with the original tags |
| Tasks.SpacedJoin | task_lib/task.py:57-60 | the `", "` join that is written back is the `","` join of the tags each preceded by a space |
| TagUtility.FileLinesCover | bin/tag-utility.py:15 | the lines that iterating a file yields, each keeping its line break, concatenate back to the file text |
| TagUtility.MatchesTagPattern | bin/tag-utility.py:8-16 | `re.match` of `^tags:\s*.*$`, with `\s*` able to take any length and `$` allowed before a final line break; only lines starting with `tags:` match, and every such line without a line break does |
| TagUtility.TagPatternIffPrefix | bin/tag-utility.py:8-16 | for a line as file iteration yields it (a line break at most at its end), matching `^tags:\s*.*$` is the same as starting with `tags:` |
| TagUtility.EmittedTags | bin/tag-utility.py:19-24 | the tag lines written are those of the items at even positions, one `[tag:…]` line each, ceil(n/2) lines in all |
| TagUtility.TagLineRewrite | bin/tag-utility.py:16-24 | a matching line becomes `[tag:x]` lines for the stripped items at even positions |
| TagUtility.NonTagLineRewrite | bin/tag-utility.py:26-30 | a line not starting with `tags:` is written back stripped, with one line break, and the stripped line holds no other line break |
| TagUtility.RewriteLine | bin/tag-utility.py:16-30 | one input line's output: the `[tag:…]` lines of a matching line, or the line stripped plus a line break; it is never empty and always ends with a line break |
| TagUtility.Migrate | bin/tag-utility.py:15-30 | the whole output for a file's text, the outputs of its lines in order; it is empty only for an empty file and otherwise ends with a line break |
| TagUtility.RewriteOne | bin/tag-utility.py:16-30 | one line's output is nothing in a dry run and its rewrite otherwise |
| TagUtility.EmitTags | bin/tag-utility.py:19-24 | the tag loop writes the concatenated tag lines, and nothing in a dry run |
| TagUtility.Rewrite | bin/tag-utility.py:15-30 | the line loop writes the concatenation of every line's rewrite, and nothing in a dry run |
| TagUtility.FindAndReplace | bin/tag-utility.py:6-30 | a missing input file fails; otherwise the output file holds the migrated text. In a dry run the roles swap, the input is the output file, and the dummy file is truncated. An output equal to the input ends up empty |
| TagUtility.BackupMarkdownFile | bin/tag-utility.py:33-42 | outside a dry run an existing file gets a copy named `<file>.bak`; otherwise nothing changes |
| TagUtility.BackupNameDerivation | bin/tag-utility.py:35-36 | the backup path is the source path with `.bak` appended |
| LaneStore.WithLane | task_lib/task_manager.py:31-34 | adding a lane adds an empty lane when it is missing and is the identity when it exists |
| LaneStore.WriteFile | task_lib/task.py:37-41 | writing a file creates the lane if needed, sets that one file and changes no other file |
| LaneStore.MoveFile | task_lib/task_manager.py:49-50 | moving a file empties its old place, puts its text at the new place and changes nothing else |
| LaneStore.SaveAllLastWins | task_lib/task_manager.py:44-46 | `SaveAll`, the loop of `task.save()` calls (`SaveTask`, task_lib/task.py:35-41): after saving a sequence of tasks, a task's file holds its content when no later task in the sequence is saved to the same file |
| LaneStore.SaveAllUntouched | task_lib/task_manager.py:44-46 | saving tasks leaves every file none of them is saved to as it was, and removes no lane |
| LaneStore.SplitOneUntouched | task_lib/task_manager.py:41-50 | `SplitOne`, one turn of the split loop: handling one task in the split pass leaves every file it does not touch as it was |
| LaneStore.SplitOneMarked | task_lib/task_manager.py:41-50 | splitting a marked task writes every fragment file, moves the original to Trash and removes it from its lane |
| LaneStore.SplitAllMarkedOutcome | task_lib/task_manager.py:36-50 | `SplitAll`, the fold of `SplitOne` over the listed tasks: across a whole pass, a marked task ends in Trash with its fragments in its lane, provided no other task in the pass writes the task's own file and no later task writes its fragment files or its name in Trash |
| LaneStore.SplitMovesEarlierFragment | task_lib/task_manager.py:41-50 | as written, a marked task listed after a marked task `x` and named like `x`'s first fragment (`1-<x>.md`) is overwritten by that fragment, which is then moved into Trash: neither text is left in the lane |
| LaneStore.SplitFindsOriginals | task_lib/task_manager.py:36-50 | every listed task's file is still present when its turn comes in the split pass |
| LaneStore.ListingLoaded | task_lib/task_manager.py:22-25 | each task in a lane listing is the one loaded from a `.md` file of that lane |
| LaneStore.ListedTasksLoaded | task_lib/task_manager.py:14-29 | every task in the snapshot is loaded from its file and belongs to a listed lane |
| LaneStore.ListedTasksDistinct | task_lib/task_manager.py:14-29 | no two tasks in the snapshot come from the same file |
| LaneStore.RowTask | task_lib/task_manager.py:57-72 | a CSV row becomes a task with the row's title and lane, tags parsed from the tag list, and the tag header in front of the text |
| LaneStore.EmptyTagListRow | task_lib/task_manager.py:58-64 | a row with an empty tag list still gets a `tags: ` line, naming a single empty tag |
| LaneStore.RowTagsRoundTrip | task_lib/task_manager.py:57-73 | a row's file reads back with the tags parsed from its tag list |
| LaneStore.CsvRowSaved | task_lib/task_manager.py:73 | after the import, every row that no later row overwrites has its file with its content |
| LaneStore.WithoutMarkdown | task_lib/task_manager.py:77-78 | emptying Trash keeps exactly the files not ending in `.md` |
| LaneStore.ReportedRemovalsAsWritten | task_lib/task_manager.py:79 | the count as written, the `.md` files globbed in Trash after they were unlinked, is 0 for every Trash |
| LaneStore.ReportedRemovalsAlwaysZero | task_lib/task_manager.py:79 | for a Trash holding one `.md` file, the removal takes one file away while the printed count is 0 |
| LaneStore.RemovedCount | task_lib/task_manager.py:75-79 | the corrected count, the `.md` files in Trash before the removal, is at most the number of files and is 0 exactly when no file ends in `.md` |
| LaneStore.RemovedCountIsRemovals | task_lib/task_manager.py:75-79 | the corrected count equals the number of files removed |
| LaneStore.TaskManager.constructor | task_lib/task_manager.py:9-12 | the manager starts over the given tree, with Trash present |
| LaneStore.TaskManager.ListLane | task_lib/task_manager.py:22-25 | the lane listing holds one loaded task per `.md` file of the lane, and no other task |
| LaneStore.TaskManager.GetAllTasks | task_lib/task_manager.py:14-29 | the result lists every lane except Trash once, each with its listing, and changes nothing |
| LaneStore.TaskManager.AddLane | task_lib/task_manager.py:31-34 | the new store is the old one with the lane added if it was missing |
| LaneStore.TaskManager.SaveTaskFile | task_lib/task.py:35-41 | the new store is the old one with the task's file written |
| LaneStore.TaskManager.MoveIntoTrash | task_lib/task_manager.py:49-50 | the new store is the old one with the file moved to Trash |
| LaneStore.TaskManager.SplitTask | task_lib/task_manager.py:42-50 | the body of the split loop turns the store into `SplitOne` of the old store |
| LaneStore.TaskManager.SplitLaneTasks | task_lib/task_manager.py:41-50 | a lane's loop turns the store into the fold of `SplitOne` over its tasks |
| LaneStore.TaskManager.SplitTasks | task_lib/task_manager.py:36-50 | the split pass is the fold of `SplitOne` over a snapshot of the store taken first |
| LaneStore.TaskManager.CreateTasksFromCsv | task_lib/task_manager.py:52-73 | the import saves the row tasks in row order |
| LaneStore.TaskManager.EmptyTrash | task_lib/task_manager.py:75-79 | Trash keeps only its non-`.md` files, nothing else changes, and the corrected count is returned |
| LaneStore.ChangedLane | task_lib/task_manager.py:81-103 | the outcome of a lane change: with no source lane nothing changes; with one, the lane set grows by the new lane only and `<title>.md` in the new lane holds the text it had in the source lane |
| LaneStore.TaskManager.ChangeLane | task_lib/task_manager.py:81-103 | with no non-Trash lane holding `<title>.md` nothing changes; otherwise that file moves from such a lane to the new lane, which is created if needed |
| TaskServer.AddTaskFromJson | mcp_task_service/server.py:89-118 | a missing title, content or lane fails with a missing-fields error, and only then. An invalid non-empty due date fails, and only then. A success carries the given fields, the default empty tags and the path `<base>/<lane>/<title>.md`, with a date exactly when one was given |
| TaskServer.AddedTaskReloads | mcp_task_service/server.py:106-116 | the added task's file holds its content and reloads as a task with the same title and lane |
| TaskServer.AddTask | mcp_task_service/server.py:89-118 | the result is `AddTaskFromJson`'s; only a success writes the task's file |
| TaskServer.FindTask | mcp_task_service/server.py:153-163 | the search finds nothing exactly when no task has the title; otherwise it finds the first match in lane order |
| TaskServer.MoveTaskToLane | mcp_task_service/server.py:145-168 | an unknown title fails with task-not-found and changes nothing; otherwise the store changes as `change_lane` does and the old lane's name is returned |
| TaskServer.ListLanes | mcp_task_service/server.py:193-202 | one entry per lane, in order, with its name and task count, and the lane total |
| TaskServer.ListLanesCountsEveryTask | mcp_task_service/server.py:193-202 | the per-lane counts sum to the number of tasks on the board |
| TaskServer.LanesToCheck | mcp_task_service/server.py:236 | a lane name that is given and known restricts the search to that lane; otherwise all lanes are searched |
| TaskServer.FilterByTagMembers | mcp_task_service/server.py:241 | a task is kept exactly when it is in the input and passes the tag filter |
| TaskServer.ListedIff | mcp_task_service/server.py:233-256 | a task is listed exactly when it is in one of the lanes checked and passes the tag filter |
| TaskServer.FilterLane | mcp_task_service/server.py:240-252 | the inner loop extends the listing by the lane's tasks that pass the filter |
| TaskServer.ListTasks | mcp_task_service/server.py:233-256 | the listing is `Listed`, and the count is its length |
| TaskServer.NonEmptyStripped | mcp_task_service/server.py:321 | the tags kept from a tag argument are stripped and non-empty |
| TaskServer.ParseTagArgument | mcp_task_service/server.py:321 | the tag argument's comma pieces, stripped, with empty ones dropped; every tag is non-empty, stripped and free of commas |
| TaskServer.TagArgumentRoundTrip | mcp_task_service/server.py:321 | parsing the `", "` join of non-empty, stripped, comma-free tags gives the tags back |
| TaskServer.ApplyUpdate | mcp_task_service/server.py:317-334 | only an invalid non-empty date fails. Each field changes only when its argument is given. A new title also moves the path. An empty date clears the due date |
| TaskServer.EmptyUpdateIsIdentity | mcp_task_service/server.py:317-334 | an update with no arguments leaves the task as it was |
| TaskServer.RenamedPath | mcp_task_service/server.py:323-325 | a new title gives the path `<dir>/<new title>.md` |
| TaskServer.FilesAfterUpdateAsWritten | mcp_task_service/server.py:337-341 | the store after an update as written: with a non-empty new title the old path is left empty, even when the new title names the same file; with no new title, or an empty one, the update is a plain save |
| TaskServer.SameTitleUpdateDeletesTask | mcp_task_service/server.py:337-341 | as written, renaming a task to its own title deletes the file just saved |
| TaskServer.FilesAfterUpdate | mcp_task_service/server.py:337-341 | after an update the task's file holds the new content |
| TaskServer.UpdateKeepsTask | mcp_task_service/server.py:337-341 | a rename to a different place writes the new file, removes the old one and changes nothing else |
| TaskServer.UpdateTask | mcp_task_service/server.py:295-343 | an unknown title fails and changes nothing. Otherwise the first match is updated as `ApplyUpdate` says. Only a success writes the files, with the corrected unlink |

## Left out

- File contents are read and written whole. Universal-newline translation (`\r\n` and `\r` read as `\n`) and text encodings are not modelled.
- Read and write failures are not modelled, except the missing input file of the migration. These include permission errors and a lane name that is not a single path component. Lane and file names are treated as single path components.
- Console output is not modelled: the dry-run messages of the migration, the counts and "not found" messages `TaskManager` prints, and the logging of the server.
- Reading the CSV file (`csv.DictReader`) is left out. `CreateTasksFromCsv` receives the rows already parsed.
- JSON decoding is left out, and so are the wrapping of tool results into JSON strings and the `FastMCP` tool registration. Only "absent" is modelled for optional JSON fields; `null` and values of other types are not.
- The exception handlers that turn any other error into an error message are left out.
- `datetime.strptime` is the parameter `parse`; the date type is opaque apart from its fields.
- The server builds its task record with a `due_date` field, which `task_lib/task.py` does not declare. The model gives the server's record (`TaskServer.ServerTask`) that optional field. The date is not persisted, since `to_file` writes only the content.
- The server's `split_tasks` tool is left out (`mcp_task_service/server.py:350-397`). It runs the store's split, modelled as `SplitTasks`, and only adds a report of what it split.
- The server's `get_statistics` tool is left out (`mcp_task_service/server.py:400-420`). It calls `calculate_statistics` on the `TaskManager`, and `task_lib/task_manager.py` defines no such method. As written, the call raises `AttributeError` and the tool returns its error object.
- The migration's `__main__` directory walk is left out (`bin/tag-utility.py:45-57`); its per-file steps are `BackupMarkdownFile` and `FindAndReplace`.
- `config.py` and the command-line entry point `task-util.py` are not part of this model. `TaskManager` takes the base directory directly.
- Directory iteration order is not fixed. The methods choose an order nondeterministically, so no lemma depends on a particular order.
- `LaneStore.SplitAllMarkedOutcome`: stated only when no other task in the pass, earlier or later, writes the task's own file, and no later task writes its fragment files or its name in Trash. When an earlier task's fragment lands on the task's file, the pass moves that fragment into Trash, as `SplitMovesEarlierFragment` shows; when a later task overwrites a fragment, the last write wins, as `SaveAllLastWins` states.
- `TaskServer.MoveTaskToLane`: the board searched is a parameter, not tied to the store. The lane move itself follows `change_lane`, which searches the store again.

## Findings

| source | as written | input that shows it | evidently intended | confidence | as-written member | corrected member |
|---|---|---|---|---|---|---|
| mcp_task_service/server.py:337-341 | after saving under the new title, the old path is unlinked whenever a new title was given | `update_task(title="a", new_title="a")`: the file `a.md` is saved and then unlinked | unlink the old file only when it differs from the file just saved | not executed | TaskServer.SameTitleUpdateDeletesTask | TaskServer.UpdateKeepsTask |
| task_lib/task_manager.py:79 | the count of removed files is taken by globbing Trash after the files were unlinked | Trash holding `a.md`: one file is removed and 0 is reported | report the number of `.md` files removed | not executed | LaneStore.ReportedRemovalsAlwaysZero | LaneStore.RemovedCountIsRemovals |
