/**
 * File locations as the task tools build them with `pathlib.Path` and
 * `os.path.join`: a directory (a sequence of components) and a file name.
 */
module Paths {
  import opened Text

  datatype FilePath = FilePath(dir: seq<string>, name: string)

  const MdSuffix := ".md"

  /** `s.rfind(c)`: the last index of `c`, or -1. */
  function RFind(s: string, c: char): (i: int)
    ensures -1 <= i < |s|
    ensures i >= 0 ==> s[i] == c
    ensures forall k :: i < k < |s| ==> s[k] != c
    decreases |s|
  {
    if s == [] then -1
    else if s[|s| - 1] == c then |s| - 1
    else RFind(s[..|s| - 1], c)
  }

  /** `Path.stem`: the name without its last suffix; a leading or trailing dot is not a suffix. */
  function Stem(name: string): string {
    var i := RFind(name, '.');
    if 0 < i < |name| - 1 then name[..i] else name
  }

  /** `Path.name` of a directory: its last component, or "" for the empty path. */
  function DirName(dir: seq<string>): string {
    if dir == [] then "" else dir[|dir| - 1]
  }

  /** The name `f"{title}.md"` of the file that holds a task with this title. */
  function MdFileName(title: string): string {
    title + MdSuffix
  }

  /** A non-empty title is recovered from its file name by `Path.stem`. */
  lemma StemOfMdFileName(title: string)
    requires title != []
    ensures Stem(MdFileName(title)) == title
  {
    var n := MdFileName(title);
    var n1 := n[..|n| - 1];
    var n2 := n1[..|n1| - 1];
    assert n1 == title + ".m" && n2 == title + ".";
    assert n[|n| - 1] == 'd' && n1[|n1| - 1] == 'm' && n2[|n2| - 1] == '.';
    assert RFind(n, '.') == RFind(n1, '.') == RFind(n2, '.') == |title|;
    assert n[..|title|] == title;
  }

  /** The empty title is not: `".md"` is its own stem. */
  lemma StemOfEmptyTitle()
    ensures Stem(MdFileName("")) == ".md"
  {
    assert RFind(".md", '.') == 0;
  }

  /** Stripping the suffix of a `.md` name removes at most those three characters. */
  lemma StemOfMdName(name: string)
    requires EndsWith(name, MdSuffix)
    ensures |Stem(name)| + 3 >= |name|
  {
    var n1 := name[..|name| - 1];
    var n2 := n1[..|n1| - 1];
    assert name[|name| - 3..] == ".md";
    assert name[|name| - 1] == 'd' && n1[|n1| - 1] == 'm' && n2[|n2| - 1] == '.';
    assert RFind(name, '.') == RFind(n1, '.') == RFind(n2, '.') == |name| - 3;
  }

  /** `os.path.join(a, b)` on POSIX. */
  function PosixJoin(a: string, b: string): string {
    if StartsWith(b, "/") then b
    else if a == [] || EndsWith(a, "/") then a + b
    else a + "/" + b
  }
}
