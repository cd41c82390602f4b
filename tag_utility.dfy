/**
 * The one-off migration script `bin/tag-utility.py`: it rewrites every
 * `tags: a, b, c` line of a task file into `[tag:...]` lines and strips every
 * other line, and it backs a file up under the same name with `.bak` added.
 * Files are a map from path to text; the text of a file is read the way
 * iterating over an open text file reads it, one line (with its line break)
 * at a time.
 */
module TagUtility {
  import opened Wrappers
  import opened Text
  import opened Paths
  import opened Tasks

  /** The dummy file a dry run opens for writing. */
  const DryRunOutput := "/home/scott/dryrun_output.md"

  // ---------------------------------------------------------------------------
  // reading a text file line by line

  /** A line as file iteration yields it: a line break can only be its last character. */
  predicate IsFileLine(line: string) {
    forall k :: 0 <= k < |line| - 1 ==> line[k] != '\n'
  }

  /** Length of the first line of a non-empty text, its line break included. */
  function FirstLineLength(text: string): (k: nat)
    requires text != []
    ensures 1 <= k <= |text|
    ensures IsFileLine(text[..k])
    ensures k < |text| ==> text[k - 1] == '\n'
    decreases |text|
  {
    if text[0] == '\n' || |text| == 1 then 1 else 1 + FirstLineLength(text[1..])
  }

  /** `for line in open(...)`: the lines of a text, each keeping its line break. */
  function FileLines(text: string): (lines: seq<string>)
    ensures forall k :: 0 <= k < |lines| ==> lines[k] != [] && IsFileLine(lines[k])
    ensures forall k :: 0 <= k < |lines| - 1 ==> lines[k][|lines[k]| - 1] == '\n'
    decreases |text|
  {
    if text == [] then []
    else
      var k := FirstLineLength(text);
      [text[..k]] + FileLines(text[k..])
  }

  /** Concatenation of a sequence of strings, in order. */
  function Concat(xs: seq<string>): string {
    if xs == [] then "" else Concat(xs[..|xs| - 1]) + xs[|xs| - 1]
  }

  lemma {:induction false} ConcatCons(x: string, xs: seq<string>)
    ensures Concat([x] + xs) == x + Concat(xs)
    decreases |xs|
  {
    if xs != [] {
      assert ([x] + xs)[..|xs|] == [x] + xs[..|xs| - 1];
      ConcatCons(x, xs[..|xs| - 1]);
    }
  }

  /** Concatenation distributes over appending sequences of strings. */
  lemma {:induction false} ConcatAppend(xs: seq<string>, ys: seq<string>)
    ensures Concat(xs + ys) == Concat(xs) + Concat(ys)
    decreases |ys|
  {
    if ys == [] {
      assert xs + ys == xs;
    } else {
      var zs := xs + ys;
      assert zs[..|zs| - 1] == xs + ys[..|ys| - 1];
      ConcatAppend(xs, ys[..|ys| - 1]);
    }
  }

  /** Taking one more element of a sequence of strings appends it to the concatenation. */
  lemma ConcatPrefixStep(xs: seq<string>, n: nat)
    requires n < |xs|
    ensures Concat(xs[..n + 1]) == Concat(xs[..n]) + xs[n]
  {
    assert xs[..n + 1][..n] == xs[..n];
  }

  /** Reading a file line by line loses nothing: the lines put together are the text. */
  lemma {:induction false} FileLinesCover(text: string)
    ensures Concat(FileLines(text)) == text
    decreases |text|
  {
    if text != [] {
      var k := FirstLineLength(text);
      var line, rest := text[..k], FileLines(text[k..]);
      calc {
        Concat(FileLines(text));
        Concat([line] + rest);
        { ConcatCons(line, rest); }
        line + Concat(rest);
        { FileLinesCover(text[k..]); }
        line + text[k..];
        text;
      }
    }
  }

  // ---------------------------------------------------------------------------
  // the pattern ^tags:\s*.*$

  /** `.*$`: no line break, or a single one at the very end. */
  predicate MatchesLineRest(x: string) {
    '\n' !in x || (x[|x| - 1] == '\n' && '\n' !in x[..|x| - 1])
  }

  /** `\s*.*$` at the start of `x`, trying every length of the white-space run. */
  predicate MatchesSpacesThenLineRest(x: string)
    decreases |x|
  {
    MatchesLineRest(x) || (x != [] && IsSpace(x[0]) && MatchesSpacesThenLineRest(x[1..]))
  }

  /**
   * `re.compile('^tags:\s*.*$').match(line) is not None`: only lines starting
   * with `tags:` match, and every such line without a line break does.
   */
  predicate MatchesTagPattern(line: string)
    ensures MatchesTagPattern(line) ==> StartsWith(line, TagsPrefix)
    ensures StartsWith(line, TagsPrefix) && '\n' !in line ==> MatchesTagPattern(line)
  {
    StartsWith(line, TagsPrefix) && MatchesSpacesThenLineRest(line[|TagsPrefix|..])
  }

  /** On a line read from a file the pattern holds exactly when the line starts with `tags:`. */
  lemma TagPatternIffPrefix(line: string)
    requires IsFileLine(line)
    ensures MatchesTagPattern(line) <==> StartsWith(line, TagsPrefix)
  {
    if StartsWith(line, TagsPrefix) {
      var x := line[|TagsPrefix|..];
      assert forall k :: 0 <= k < |x| - 1 ==> x[k] == line[k + 5];
      if '\n' in x {
        var p :| 0 <= p < |x| && x[p] == '\n';
        assert p == |x| - 1;
        assert x[..|x| - 1] == x[..p];
      }
      assert MatchesLineRest(x);
    }
  }

  // ---------------------------------------------------------------------------
  // rewriting one line

  /** `f"[tag:{item.strip()}]"` */
  function TagText(item: string): string {
    "[tag:" + Strip(item) + "]"
  }

  /** The number of indexes `range(0, n, 2)` visits. */
  function Halves(n: nat): (h: nat)
    ensures 2 * h == n || 2 * h == n + 1
  {
    if n == 0 then 0 else if n == 1 then 1 else 1 + Halves(n - 2)
  }

  /** The lines the stride-2 loop writes: one for each of items 0, 2, 4, ... */
  function EmittedTags(items: seq<string>): (out: seq<string>)
    ensures |out| == Halves(|items|)
    ensures forall j :: 0 <= j < |out| ==> 2 * j < |items| && out[j] == TagText(items[2 * j]) + "\n"
  {
    seq(Halves(|items|), j requires 0 <= j < Halves(|items|) => TagText(items[2 * j]) + "\n")
  }

  /** What the script writes for one input line. */
  function RewriteLine(line: string): (r: string)
    ensures r != [] && r[|r| - 1] == '\n'
  {
    if MatchesTagPattern(line) then
      var out := EmittedTags(ParseTagItems(line[|TagsPrefix|..]));
      assert Concat(out) == Concat(out[..|out| - 1]) + out[|out| - 1];
      Concat(out)
    else Strip(line) + "\n"
  }

  /** What the script writes for each of a sequence of lines. */
  function RewrittenLines(lines: seq<string>): (out: seq<string>)
    ensures |out| == |lines|
  {
    seq(|lines|, k requires 0 <= k < |lines| => RewriteLine(lines[k]))
  }

  /**
   * The whole output for a file's text: the outputs of its lines, in order.
   * It always ends with a line break, and only an empty file gives an empty output.
   */
  function Migrate(text: string): (r: string)
    ensures r == [] <==> text == []
    ensures r != [] ==> r[|r| - 1] == '\n'
  {
    var out := RewrittenLines(FileLines(text));
    assert out != [] ==> Concat(out) == Concat(out[..|out| - 1]) + out[|out| - 1];
    Concat(out)
  }

  /** The characters of `strip` come from the string, at consecutive positions. */
  lemma StripIsInfix(s: string) returns (offset: nat)
    ensures offset + |Strip(s)| <= |s|
    ensures forall k :: 0 <= k < |Strip(s)| ==> Strip(s)[k] == s[offset + k]
  {
    var a := TrimStart(s);
    offset := |s| - |a|;
    var r := Strip(s);
    assert r == TrimEnd(a) == a[..|r|];
    assert a == s[offset..];
  }

  /** A run of a file line that does not end in a line break has none. */
  lemma NoBreakInRun(line: string, r: string, offset: nat)
    requires IsFileLine(line)
    requires offset + |r| <= |line|
    requires forall k :: 0 <= k < |r| ==> r[k] == line[offset + k]
    requires r == [] || r[|r| - 1] != '\n'
    ensures '\n' !in r
  {
    forall p | 0 <= p < |r|
      ensures r[p] != '\n'
    {
      if p < |r| - 1 {
        assert r[p] == line[offset + p];
        assert offset + p < |line| - 1;
      }
    }
  }

  /** Stripping a line read from a file removes its line break, the only one it can have. */
  lemma StrippedLineHasNoBreak(line: string)
    requires IsFileLine(line)
    ensures '\n' !in Strip(line)
  {
    var r := Strip(line);
    var offset := StripIsInfix(line);
    assert r == [] || !IsSpace(r[|r| - 1]);
    NoBreakInRun(line, r, offset);
  }

  /** A line that does not start with `tags:` comes out as exactly one line: itself stripped, then a line break. */
  lemma NonTagLineRewrite(line: string)
    requires IsFileLine(line) && !StartsWith(line, TagsPrefix)
    ensures RewriteLine(line) == Strip(line) + "\n"
    ensures '\n' !in Strip(line)
  {
    TagPatternIffPrefix(line);
    StrippedLineHasNoBreak(line);
  }

  /**
   * A `tags:` line with k comma-separated items comes out as k / 2 lines,
   * rounded up, `[tag:item]`, for items 0, 2, 4, ... only, in order.
   */
  lemma TagLineRewrite(line: string)
    requires IsFileLine(line) && StartsWith(line, TagsPrefix)
    ensures var items := SplitOn(line[|TagsPrefix|..], ",");
      var out := EmittedTags(ParseTagItems(line[|TagsPrefix|..]));
      && RewriteLine(line) == Concat(out)
      && |out| == Halves(|items|)
      && forall j :: 0 <= j < |out| ==> out[j] == "[tag:" + Strip(items[2 * j]) + "]\n"
  {
    TagPatternIffPrefix(line);
    var items := SplitOn(line[|TagsPrefix|..], ",");
    var parsed := ParseTagItems(line[|TagsPrefix|..]);
    var out := EmittedTags(parsed);
    assert |parsed| == |items|;
    forall j | 0 <= j < |out|
      ensures out[j] == "[tag:" + Strip(items[2 * j]) + "]\n"
    {
      assert 2 * j < |parsed| && out[j] == TagText(parsed[2 * j]) + "\n";
      assert parsed[2 * j] == Strip(items[2 * j]);
      StripIdempotent(items[2 * j]);
    }
  }

  // ---------------------------------------------------------------------------
  // the script's functions

  /** The stride-2 loop over the items of one `tags:` line: what it writes. */
  method EmitTags(tags: seq<string>, dryrun: bool) returns (written: string)
    ensures written == if dryrun then "" else Concat(EmittedTags(tags))
  {
    written := "";
    ghost var out := EmittedTags(tags);
    var i := 0;
    ghost var j := 0;
    while i < |tags|
      invariant i == 2 * j && 0 <= j <= |out|
      invariant dryrun ==> written == ""
      invariant !dryrun ==> written == Concat(out[..j])
    {
      assert j < |out| && out[j] == TagText(tags[i]) + "\n";
      var tagText := TagText(tags[i]);
      if !dryrun {
        ConcatPrefixStep(out, j);
        written := written + (tagText + "\n");
      }
      i, j := i + 2, j + 1;
    }
    assert j == |out|;
    assert out[..j] == out;
  }

  /** The body of the loop of `find_and_replace`: what it writes for one line. */
  method RewriteOne(line: string, dryrun: bool) returns (piece: string)
    ensures piece == if dryrun then "" else RewriteLine(line)
  {
    if MatchesTagPattern(line) {
      piece := EmitTags(ParseTagItems(line[|TagsPrefix|..]), dryrun);
    } else if dryrun {
      piece := "";
    } else {
      piece := Strip(line) + "\n";
    }
  }

  /** The loop of `find_and_replace`: what it writes to the output stream for the given input text. */
  method Rewrite(text: string, dryrun: bool) returns (written: string)
    ensures written == if dryrun then "" else Migrate(text)
  {
    var lines := FileLines(text);
    ghost var out := RewrittenLines(lines);
    written := "";
    var n := 0;
    while n < |lines|
      invariant 0 <= n <= |lines|
      invariant written == if dryrun then "" else Concat(out[..n])
    {
      var piece := RewriteOne(lines[n], dryrun);
      ConcatPrefixStep(out, n);
      written := written + piece;
      n := n + 1;
    }
    assert out[..n] == out;
  }

  /**
   * `find_and_replace(inputfile, outputfile, dryrun)` over a map from path to
   * text. A dry run reads `outputfile` and writes to the dummy file instead;
   * nothing reaches the output, which `open(..., 'w')` has still emptied.
   * A missing input file raises, before anything is opened for writing
   * (`None`). When input and output are the same file, opening the output
   * empties it before a line is read.
   */
  method FindAndReplace(files: map<string, string>, inputfile: string, outputfile: string, dryrun: bool)
    returns (r: Option<map<string, string>>)
    ensures var src := if dryrun then outputfile else inputfile;
      var dst := if dryrun then DryRunOutput else outputfile;
      && (src !in files <==> r.None?)
      && (src in files ==> r == Some(files[dst := if dryrun || src == dst then "" else Migrate(files[src])]))
  {
    var src, dst := inputfile, outputfile;
    if dryrun {
      src := outputfile;
      dst := DryRunOutput;
    }
    if src !in files {
      return None;
    }
    var text := if src == dst then "" else files[src];
    var written := Rewrite(text, dryrun);
    assert Migrate("") == "";
    return Some(files[dst := written]);
  }

  /** `backup_markdown_file`: copy `root/filename` to `root/filename.bak`, unless dry-running; a failure is only reported. */
  function BackupMarkdownFile(files: map<string, string>, root: string, filename: string, dryrun: bool): (r: map<string, string>)
    ensures var src := PosixJoin(root, filename);
      && (dryrun || src !in files ==> r == files)
      && (!dryrun && src in files ==> r == files[src + ".bak" := files[src]])
  {
    var src := PosixJoin(root, filename);
    var dest := PosixJoin(root, filename + ".bak");
    BackupNameDerivation(root, filename);
    if dryrun || src !in files then files else files[dest := files[src]]
  }

  /** The backup of `root/filename` is `root/filename.bak`: same directory, suffix appended. */
  lemma BackupNameDerivation(root: string, filename: string)
    ensures PosixJoin(root, filename + ".bak") == PosixJoin(root, filename) + ".bak"
  {
    var b := filename + ".bak";
    if filename == [] {
      assert b[..1] == ".";
    } else {
      assert b[..1] == filename[..1];
    }
    if StartsWith(filename, "/") {
      assert StartsWith(b, "/");
    } else {
      assert !StartsWith(b, "/");
      if root == [] || EndsWith(root, "/") {
        assert root + b == (root + filename) + ".bak";
      } else {
        assert root + "/" + b == (root + "/" + filename) + ".bak";
      }
    }
  }
}
