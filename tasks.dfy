/**
 * The task record of `task_lib/task.py`: loading a task from the raw text
 * of its file (the tag list comes from the first `tags:` line), the location
 * `to_file` saves it at, and splitting a task at `[[split]]` markers into
 * numbered fragments that carry a copy of its tag line.
 */
module Tasks {
  import opened Wrappers
  import opened Text
  import opened Paths

  datatype Task = Task(title: string, content: string, tags: seq<string>, lane: string, path: FilePath)

  const TagsPrefix := "tags:"
  const SplitMarker := "[[split]]"

  /** The lines of a text, as `content.split('\n')` gives them. */
  function Lines(content: string): seq<string> {
    SplitOn(content, "\n")
  }

  /** A tag line's tags: the text after `tags:` split on commas, every item stripped (empty items kept). */
  function ParseTagItems(rest: string): (tags: seq<string>)
    ensures |tags| >= 1
    ensures forall k :: 0 <= k < |tags| ==> IsTrimmed(tags[k])
  {
    var items := SplitOn(rest, ",");
    seq(|items|, k requires 0 <= k < |items| => Strip(items[k]))
  }

  /** The index of the first line that starts with `tags:`, if any. */
  function FirstTagLine(lines: seq<string>): (r: Option<nat>)
    ensures r.Some? ==> r.value < |lines| && StartsWith(lines[r.value], TagsPrefix)
    ensures r.Some? ==> forall j :: 0 <= j < r.value ==> !StartsWith(lines[j], TagsPrefix)
    ensures r.None? ==> forall j :: 0 <= j < |lines| ==> !StartsWith(lines[j], TagsPrefix)
  {
    if lines == [] then None
    else if StartsWith(lines[0], TagsPrefix) then Some(0)
    else match FirstTagLine(lines[1..])
      case None => None
      case Some(i) => Some(i + 1)
  }

  /** The first `tags:` line is the one after the lines that do not start with it. */
  lemma {:induction false} FirstTagLineAt(lines: seq<string>, i: nat)
    requires i <= |lines|
    requires forall j :: 0 <= j < i ==> !StartsWith(lines[j], TagsPrefix)
    requires i < |lines| ==> StartsWith(lines[i], TagsPrefix)
    ensures FirstTagLine(lines) == if i < |lines| then Some(i) else None
    decreases i
  {
    if i > 0 {
      assert !StartsWith(lines[0], TagsPrefix);
      forall j | 0 <= j < i - 1
        ensures !StartsWith(lines[1..][j], TagsPrefix)
      {
        assert lines[1..][j] == lines[j + 1];
      }
      FirstTagLineAt(lines[1..], i - 1);
    }
  }

  /** The tags `from_file` reads from a task's text: those of its first `tags:` line, or none. */
  function TagsOf(content: string): (tags: seq<string>)
    ensures var lines := Lines(content);
      (forall j :: 0 <= j < |lines| ==> !StartsWith(lines[j], TagsPrefix)) ==> tags == []
    ensures var lines := Lines(content);
      forall i :: 0 <= i < |lines| && StartsWith(lines[i], TagsPrefix)
        && (forall j :: 0 <= j < i ==> !StartsWith(lines[j], TagsPrefix))
        ==> tags == ParseTagItems(lines[i][|TagsPrefix|..])
  {
    var lines := Lines(content);
    match FirstTagLine(lines)
    case None => []
    case Some(i) => ParseTagItems(lines[i][|TagsPrefix|..])
  }

  /** The task `from_file` builds: title from the file stem, lane from the parent directory, text verbatim. */
  function FileTask(text: string, path: FilePath): Task {
    Task(Stem(path.name), text, TagsOf(text), DirName(path.dir), path)
  }

  /** `Task.from_file`, with the file's text passed in. */
  method FromFile(text: string, path: FilePath) returns (t: Task)
    ensures t == FileTask(text, path)
  {
    var lines := Lines(text);
    var tags: seq<string> := [];
    var i := 0;
    while i < |lines|
      invariant 0 <= i <= |lines|
      invariant tags == []
      invariant forall j :: 0 <= j < i ==> !StartsWith(lines[j], TagsPrefix)
    {
      if StartsWith(lines[i], TagsPrefix) {
        tags := ParseTagItems(lines[i][|TagsPrefix|..]);
        break;
      }
      i := i + 1;
    }
    FirstTagLineAt(lines, i);
    t := Task(Stem(path.name), text, tags, DirName(path.dir), path);
  }

  /** Where `to_file` writes a task: `<base>/<lane>/<title>.md`. */
  function ToFilePath(base: seq<string>, t: Task): FilePath {
    FilePath(base + [t.lane], MdFileName(t.title))
  }

  /** A saved task with a non-empty title loads back with its title, lane and text; its tags are re-read from the text. */
  lemma SavedTaskReloads(base: seq<string>, t: Task)
    requires t.title != []
    ensures FileTask(t.content, ToFilePath(base, t)) == t.(tags := TagsOf(t.content), path := ToFilePath(base, t))
  {
    StemOfMdFileName(t.title);
  }

  // ---------------------------------------------------------------------------
  // split

  /** `"tags: " + ", ".join(tags)`: the tag line as `split` writes it, without its line break. */
  function TagLineText(tags: seq<string>): string {
    "tags: " + JoinWith(", ", tags)
  }

  /** The line `split` removes from the first segment. */
  function TagLine(tags: seq<string>): (r: string)
    ensures r != []
  {
    TagLineText(tags) + "\n"
  }

  /** The header `split` puts in front of every fragment of a tagged task. */
  function TagHeader(tags: seq<string>): string {
    TagLineText(tags) + "\n\n"
  }

  /** `f"{i}-{title}"` */
  function FragmentTitle(i: nat, title: string): string {
    NatToString(i) + "-" + title
  }

  /** The segments between markers, with every copy of the tag line removed from the first one only. */
  function Segments(t: Task): (segs: seq<string>)
    ensures |segs| == |SplitOn(t.content, SplitMarker)|
  {
    var parts := SplitOn(t.content, SplitMarker);
    [RemoveAll(parts[0], TagLine(t.tags))] + parts[1..]
  }

  /** Fragment number `i` (counted from 1) made from `segment`. */
  function Fragment(t: Task, i: nat, segment: string): Task {
    var title := FragmentTitle(i, t.title);
    var body := Strip(segment);
    var content := if t.tags != [] then TagHeader(t.tags) + body else body;
    Task(title, content, t.tags, t.lane, FilePath(t.path.dir, MdFileName(title)))
  }

  /** What `Task.split` returns. */
  function Fragments(t: Task): seq<Task> {
    if !Contains(t.content, SplitMarker) then [t]
    else
      var segs := Segments(t);
      seq(|segs|, k requires 0 <= k < |segs| => Fragment(t, k + 1, segs[k]))
  }

  /** With a marker, fragment k is made from segment k. */
  lemma FragmentsOfSegments(t: Task)
    requires Contains(t.content, SplitMarker)
    ensures |Fragments(t)| == |Segments(t)|
    ensures forall k :: 0 <= k < |Segments(t)| ==> Fragments(t)[k] == Fragment(t, k + 1, Segments(t)[k])
  {
  }

  /** `Task.split` */
  method Split(t: Task) returns (fragments: seq<Task>)
    ensures fragments == Fragments(t)
  {
    if !Contains(t.content, SplitMarker) {
      return [t];
    }
    var parts := SplitOn(t.content, SplitMarker);
    parts := parts[0 := RemoveAll(parts[0], TagLine(t.tags))];
    assert parts == Segments(t);
    ghost var fs := Fragments(t);
    FragmentsOfSegments(t);
    fragments := [];
    var i := 0;
    while i < |parts|
      invariant 0 <= i <= |parts|
      invariant fragments == fs[..i]
    {
      var newTitle := FragmentTitle(i + 1, t.title);
      var newContent := Strip(parts[i]);
      if t.tags != [] {
        newContent := TagHeader(t.tags) + newContent;
      }
      var newTask := Task(newTitle, newContent, t.tags, t.lane, FilePath(t.path.dir, MdFileName(newTitle)));
      assert newTask == fs[i];
      assert fs[..i + 1] == fs[..i] + [fs[i]];
      fragments := fragments + [newTask];
      i := i + 1;
    }
    assert fs[..i] == fs;
  }

  /** Without a marker the task splits into itself; with k markers into k + 1 fragments. */
  lemma FragmentCount(t: Task)
    ensures |Fragments(t)| == Count(t.content, SplitMarker) + 1
    ensures !Contains(t.content, SplitMarker) ==> Fragments(t) == [t]
    ensures Contains(t.content, SplitMarker) ==> |Fragments(t)| >= 2
  {
    SplitCount(t.content, SplitMarker);
    SplitSingle(t.content, SplitMarker);
  }

  /**
   * The segments are the text between markers in order: joined back with the
   * marker they give the content, none contains a marker, only the first has
   * the tag line taken out (every copy of it), and the others are untouched.
   */
  lemma SegmentsOfContent(t: Task)
    ensures var parts := SplitOn(t.content, SplitMarker);
      && JoinWith(SplitMarker, parts) == t.content
      && (forall k :: 0 <= k < |parts| ==> !Contains(parts[k], SplitMarker))
      && Segments(t)[0] == JoinWith("", SplitOn(parts[0], TagLine(t.tags)))
      && (forall k :: 1 <= k < |parts| ==> Segments(t)[k] == parts[k])
  {
    var parts := SplitOn(t.content, SplitMarker);
    JoinSplit(t.content, SplitMarker);
    SplitPiecesFree(t.content, SplitMarker);
    RemoveAllIsSplitJoin(parts[0], TagLine(t.tags));
  }

  /** Fragment k is numbered k + 1, keeps the lane and an equal copy of the tags, and sits beside the original. */
  lemma FragmentFields(t: Task, k: nat)
    requires Contains(t.content, SplitMarker) && k < |Fragments(t)|
    ensures var f := Fragments(t)[k];
      && f.title == NatToString(k + 1) + "-" + t.title
      && f.tags == t.tags && f.lane == t.lane
      && f.path == FilePath(t.path.dir, f.title + ".md")
      && (t.tags == [] ==> f.content == Strip(Segments(t)[k]) && IsTrimmed(f.content))
      && (t.tags != [] ==> f.content == TagHeader(t.tags) + Strip(Segments(t)[k]))
  {
  }

  /** Numbering makes fragment titles differ. */
  lemma FragmentTitleInjective(i: nat, j: nat, title: string)
    requires FragmentTitle(i, title) == FragmentTitle(j, title)
    ensures i == j
  {
    var a, b := NatToString(i), NatToString(j);
    var ta := FragmentTitle(i, title);
    assert ta == a + ("-" + title) && ta == b + ("-" + title);
    assert a == ta[..|a|] && b == ta[..|b|];
    NatToStringInjective(i, j);
  }

  lemma MdFileNameInjective(a: string, b: string)
    requires MdFileName(a) == MdFileName(b)
    ensures a == b
  {
    assert a == MdFileName(a)[..|a|] && b == MdFileName(b)[..|b|];
  }

  /** Fragment k's title and file name. */
  lemma FragmentNaming(t: Task, k: nat)
    requires Contains(t.content, SplitMarker) && k < |Fragments(t)|
    ensures Fragments(t)[k].title == FragmentTitle(k + 1, t.title)
    ensures Fragments(t)[k].path.name == MdFileName(Fragments(t)[k].title)
  {
  }

  /** Different fragments get different titles, hence different files. */
  lemma FragmentTitlesDistinct(t: Task, i: nat, j: nat)
    requires i < |Fragments(t)| && j < |Fragments(t)| && i != j
    requires Contains(t.content, SplitMarker)
    ensures Fragments(t)[i].title != Fragments(t)[j].title
    ensures Fragments(t)[i].path.name != Fragments(t)[j].path.name
  {
    FragmentNaming(t, i);
    FragmentNaming(t, j);
    var fi, fj := Fragments(t)[i], Fragments(t)[j];
    if fi.path.name == fj.path.name {
      MdFileNameInjective(fi.title, fj.title);
    }
    if fi.title == fj.title {
      FragmentTitleInjective(i + 1, j + 1, t.title);
    }
  }

  /** A fragment's file name is never the name of the `.md` file it was loaded from. */
  lemma FragmentNameDiffers(t: Task, k: nat)
    requires k < |Fragments(t)| && Contains(t.content, SplitMarker)
    requires EndsWith(t.path.name, MdSuffix) && t.title == Stem(t.path.name)
    ensures Fragments(t)[k].path.name != t.path.name
  {
    StemOfMdName(t.path.name);
    assert |Fragments(t)[k].path.name| >= |t.title| + 5;
  }

  // ---------------------------------------------------------------------------
  // the tag header read back

  /** A tag that survives being written on a tag line and read back. */
  predicate WellFormedTag(tag: string) {
    IsTrimmed(tag) && ',' !in tag && '\n' !in tag
  }

  function Spaced(xs: seq<string>): (ys: seq<string>)
    ensures |ys| == |xs|
  {
    seq(|xs|, k requires 0 <= k < |xs| => " " + xs[k])
  }

  lemma {:induction false} SpacedJoin(xs: seq<string>)
    requires xs != []
    ensures " " + JoinWith(", ", xs) == JoinWith(",", Spaced(xs))
    decreases |xs|
  {
    if |xs| > 1 {
      SpacedJoin(xs[1..]);
      assert Spaced(xs[1..]) == Spaced(xs)[1..];
    }
  }

  /** Reading the tags back from a text that starts with the tag header gives the same tags. */
  lemma TagHeaderRoundTrip(tags: seq<string>, body: string)
    requires tags != []
    requires forall k :: 0 <= k < |tags| ==> WellFormedTag(tags[k])
    ensures TagsOf(TagHeader(tags) + body) == tags
  {
    var joined := JoinWith(", ", tags);
    var line := TagLineText(tags);
    var content := TagHeader(tags) + body;
    JoinAvoidsChar(", ", tags, '\n');
    assert '\n' !in line;
    assert content == line + ['\n'] + ("\n" + body);
    SplitAtFirstChar(line, '\n', "\n" + body);
    var lines := Lines(content);
    assert lines[0] == line;
    assert StartsWith(line, TagsPrefix);
    assert TagsOf(content) == ParseTagItems(line[5..]);
    assert line[5..] == " " + joined;
    SpacedJoin(tags);
    var spaced := Spaced(tags);
    SplitJoinChar(spaced, ',');
    var items := ParseTagItems(line[5..]);
    assert |items| == |tags|;
    forall k | 0 <= k < |tags|
      ensures items[k] == tags[k]
    {
      StripLeadingSpace(' ', tags[k]);
    }
  }

  /** A fragment of a task whose tags are well formed reads back with the same tags. */
  lemma FragmentTagsRoundTrip(t: Task, k: nat)
    requires Contains(t.content, SplitMarker) && k < |Fragments(t)|
    requires t.tags != []
    requires forall j :: 0 <= j < |t.tags| ==> WellFormedTag(t.tags[j])
    ensures TagsOf(Fragments(t)[k].content) == t.tags
  {
    var segs := Segments(t);
    assert Fragments(t)[k] == Fragment(t, k + 1, segs[k]);
    TagHeaderRoundTrip(t.tags, Strip(segs[k]));
  }
}
