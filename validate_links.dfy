/** `findInternalLinks`, `getMarkdownFiles` and the checking loops of
    `main` in `scripts/validate-links.ts`: every `[text](/moat/...)` link
    of every markdown file under the content directory is looked up in
    the set of paths the files are served at. The directory tree and the
    file contents are given; console output and the exit are left to the
    caller, which receives whether the run succeeds. */
module ValidateLinks {
  import opened Text
  import opened Wrappers
  import opened SitePaths

  /** A match of `/\[([^\]]+)\]\(\/moat\/([^)]+)\)/` in a line: where it
      starts and ends, the whole link and the target it names. */
  datatype LinkMatch = LinkMatch(start: nat, end: nat, link: string, target: string)

  /** The link starting at `i`, if one does. `[^\]]+` stops only at a `]`
      and `[^)]+` only at a `)`, so a shorter run never helps: each group
      is the longest run. */
  function LinkAt(line: string, i: nat): (m: Option<LinkMatch>)
    requires i <= |line|
    ensures m.Some? ==> m.value.start == i && i < m.value.end <= |line| && m.value.link == line[i..m.value.end]
  {
    if i == |line| || line[i] != '[' then None
    else
      var e := Span(line, i + 1, Except({']'}));
      if e == i + 1 || !IsPrefixAt(line, "](/moat/", e) then None
      else
        var f := Span(line, e + 8, Except({')'}));
        if f == e + 8 || f == |line| then None
        else Some(LinkMatch(i, f + 1, line[i..f + 1], "/moat/" + line[e + 8..f]))
  }

  /** `linkPattern.exec(line)` with `lastIndex` at `from`: the leftmost
      link starting at or after `from`. */
  function ExecFrom(line: string, from: nat): (m: Option<LinkMatch>)
    requires from <= |line|
    ensures m.Some? ==> from <= m.value.start < m.value.end <= |line|
    decreases |line| - from
  {
    var here := LinkAt(line, from);
    if here.Some? || from == |line| then here else ExecFrom(line, from + 1)
  }

  /** The `while (exec)` loop: each search resumes where the last match
      ended. */
  function LinksFrom(line: string, from: nat): seq<LinkMatch>
    requires from <= |line|
    decreases |line| - from
  {
    match ExecFrom(line, from)
    case None => []
    case Some(m) => [m] + LinksFrom(line, m.end)
  }

  /** What `findInternalLinks` reports for one link. */
  datatype ValidationResult = ValidationResult(file: string, line: nat, link: string, target: string)

  /** The reports for the links of line `lineNumber`. */
  function Reports(file: string, lineNumber: nat, links: seq<LinkMatch>): (r: seq<ValidationResult>)
    ensures |r| == |links|
  {
    if links == [] then []
    else [ValidationResult(file, lineNumber, links[0].link, links[0].target)] + Reports(file, lineNumber, links[1..])
  }

  /** The reports for lines `i` on; line numbers count from 1. */
  function LinesReports(file: string, lines: seq<string>, i: nat): seq<ValidationResult>
    requires i <= |lines|
    decreases |lines| - i
  {
    if i == |lines| then []
    else Reports(file, i + 1, LinksFrom(lines[i], 0)) + LinesReports(file, lines, i + 1)
  }

  /** The result of `findInternalLinks(content, filePath)`. */
  function InternalLinks(content: string, filePath: string): seq<ValidationResult>
  {
    LinesReports(filePath, Split(content, {'\n'}), 0)
  }

  /** `findInternalLinks`: the lines of the content, and in each line the
      links in the order `exec` finds them. */
  method FindInternalLinks(content: string, filePath: string) returns (results: seq<ValidationResult>)
    ensures results == InternalLinks(content, filePath)
  {
    results := [];
    var lines := Split(content, {'\n'});
    var i := 0;
    while i < |lines|
      invariant 0 <= i <= |lines|
      invariant results + LinesReports(filePath, lines, i) == InternalLinks(content, filePath)
    {
      var lineResults := LineLinks(filePath, lines[i], i + 1);
      LinesReportsStep(filePath, lines, i, results);
      results := results + lineResults;
      i := i + 1;
    }
  }

  /** The `exec` loop over one line, with `lastIndex` starting at 0. */
  method LineLinks(filePath: string, line: string, lineNumber: nat) returns (results: seq<ValidationResult>)
    ensures results == Reports(filePath, lineNumber, LinksFrom(line, 0))
  {
    results := [];
    var lastIndex := 0;
    var found := ExecFrom(line, lastIndex);
    while found.Some?
      invariant lastIndex <= |line| && found == ExecFrom(line, lastIndex)
      invariant Reports(filePath, lineNumber, LinksFrom(line, 0)) == results + Reports(filePath, lineNumber, LinksFrom(line, lastIndex))
      decreases |line| - lastIndex
    {
      var m := found.value;
      ReportsCons(filePath, lineNumber, m, LinksFrom(line, m.end));
      results := results + [ValidationResult(filePath, lineNumber, m.link, m.target)];
      lastIndex := m.end;
      found := ExecFrom(line, lastIndex);
    }
  }

  lemma {:induction false} LinesReportsStep(file: string, lines: seq<string>, i: nat, done: seq<ValidationResult>)
    requires i < |lines|
    ensures done + LinesReports(file, lines, i)
            == (done + Reports(file, i + 1, LinksFrom(lines[i], 0))) + LinesReports(file, lines, i + 1)
  {
    var here := Reports(file, i + 1, LinksFrom(lines[i], 0));
    var rest := LinesReports(file, lines, i + 1);
    assert LinesReports(file, lines, i) == here + rest;
    assert done + (here + rest) == (done + here) + rest;
  }

  lemma {:induction false} ReportsCons(file: string, lineNumber: nat, m: LinkMatch, rest: seq<LinkMatch>)
    ensures Reports(file, lineNumber, [m] + rest)
            == [ValidationResult(file, lineNumber, m.link, m.target)] + Reports(file, lineNumber, rest)
  {
    assert ([m] + rest)[1..] == rest;
  }

  // The matcher.

  /** `[text](/moat/rest)`. */
  function LinkText(text: string, rest: string): string
  {
    "[" + text + "](/moat/" + rest + ")"
  }

  /** The parts of a link the pattern accepts: a non-empty `text` free of
      `]` and a non-empty `rest` free of `)`. */
  predicate LinkParts(text: string, rest: string)
  {
    text != [] && AllIn(text, Except({']'})) && rest != [] && AllIn(rest, Except({')'}))
  }

  lemma {:induction false} LinkTextPieces(text: string, rest: string)
    ensures var link := LinkText(text, rest);
            var e := 1 + |text|;
            && |link| == |text| + |rest| + 10
            && link[0] == '[' && link[1..e] == text && link[e..e + 8] == "](/moat/"
            && link[e + 8..e + 8 + |rest|] == rest && link[e + 8 + |rest|] == ')'
  {
  }

  /** Every match is a link in the pattern's syntax, and its target is
      `/moat/` followed by everything up to the first `)`. */
  lemma {:induction false} LinkAtShape(line: string, i: nat)
    requires i <= |line| && LinkAt(line, i).Some?
    ensures var m := LinkAt(line, i).value;
            exists text, rest :: LinkParts(text, rest) && m.link == LinkText(text, rest) && m.target == "/moat/" + rest
  {
    var m := LinkAt(line, i).value;
    var e := Span(line, i + 1, Except({']'}));
    var f := Span(line, e + 8, Except({')'}));
    SpanRun(line, i + 1, Except({']'}));
    SpanRun(line, e + 8, Except({')'}));
    SpanFacts(line, e + 8, Except({')'}));
    var text := line[i + 1..e];
    var rest := line[e + 8..f];
    assert m.link == line[i..f + 1] && m.target == "/moat/" + rest;
    LinkSplit(line, i, e, f);
    assert LinkParts(text, rest);
  }

  /** A stretch `[`, text, `](/moat/`, rest, `)` of a line is the link of
      that text and rest. */
  lemma {:induction false} LinkSplit(line: string, i: nat, e: nat, f: nat)
    requires i < e && e + 8 <= f < |line|
    requires line[i] == '[' && IsPrefixAt(line, "](/moat/", e) && line[f] == ')'
    ensures line[i..f + 1] == LinkText(line[i + 1..e], line[e + 8..f])
  {
    var text := line[i + 1..e];
    var rest := line[e + 8..f];
    assert line[i..i + 1] == "[" && line[f..f + 1] == ")";
    SliceSplit(line, i, i + 1, e);
    SliceSplit(line, i, e, e + 8);
    SliceSplit(line, i, e + 8, f);
    SliceSplit(line, i, f, f + 1);
    LinkTextGlue(line[i..i + 1], text, line[e..e + 8], rest, line[f..f + 1]);
  }

  lemma {:induction false} LinkTextGlue(open: string, text: string, middle: string, rest: string, close: string)
    requires open == "[" && middle == "](/moat/" && close == ")"
    ensures open + text + middle + rest + close == LinkText(text, rest)
  {
  }

  lemma {:induction false} SliceSplit(s: string, a: nat, b: nat, c: nat)
    requires a <= b <= c <= |s|
    ensures s[a..c] == s[a..b] + s[b..c]
  {
  }

  /** Conversely, a link in the pattern's syntax at `i` is matched there,
      whole. */
  lemma {:induction false} LinkAtFinds(line: string, i: nat, text: string, rest: string)
    requires i <= |line| && LinkParts(text, rest) && IsPrefixAt(line, LinkText(text, rest), i)
    ensures LinkAt(line, i) == Some(LinkMatch(i, i + |text| + |rest| + 10, LinkText(text, rest), "/moat/" + rest))
  {
    var e := i + 1 + |text|;
    var f := e + 8 + |rest|;
    LinkPiecesAt(line, i, text, rest);
    SpanOver(line, i + 1, text, Except({']'}));
    SpanOver(line, e + 8, rest, Except({')'}));
    LinkAtIs(line, i, e, f, LinkText(text, rest), rest, i + |text| + |rest| + 10);
  }

  /** Where the pieces of a link written at `i` lie in the line. */
  lemma {:induction false} LinkPiecesAt(line: string, i: nat, text: string, rest: string)
    requires IsPrefixAt(line, LinkText(text, rest), i)
    ensures var e := i + 1 + |text|;
            var f := e + 8 + |rest|;
            && f < |line| && line[i..f + 1] == LinkText(text, rest)
            && line[i] == '[' && line[i + 1..e] == text && IsPrefixAt(line, "](/moat/", e)
            && line[e + 8..f] == rest && line[f] == ')'
  {
    var link := LinkText(text, rest);
    var e := i + 1 + |text|;
    var f := e + 8 + |rest|;
    LinkTextPieces(text, rest);
    assert line[i..f + 1] == link;
    assert line[i] == '[' by {
      assert line[i..f + 1][0] == link[0];
    }
    assert line[i + 1..e] == text by {
      SliceOfSlice(line, i, link, 1, 1 + |text|);
    }
    assert line[e..e + 8] == "](/moat/" by {
      SliceOfSlice(line, i, link, 1 + |text|, 9 + |text|);
    }
    assert line[e + 8..f] == rest by {
      SliceOfSlice(line, i, link, 9 + |text|, 9 + |text| + |rest|);
    }
    assert line[f] == ')' by {
      assert line[i..f + 1][f - i] == link[f - i];
    }
  }

  lemma {:induction false} LinkAtIs(line: string, i: nat, e: nat, f: nat, link: string, rest: string, end: nat)
    requires i < |line| && line[i] == '['
    requires i + 1 < e <= |line| && Span(line, i + 1, Except({']'})) == e && IsPrefixAt(line, "](/moat/", e)
    requires e + 8 < f < |line| && Span(line, e + 8, Except({')'})) == f
    requires line[i..f + 1] == link && line[e + 8..f] == rest && end == f + 1
    ensures LinkAt(line, i) == Some(LinkMatch(i, end, link, "/moat/" + rest))
  {
  }

  // The scan.

  /** `exec` finds the leftmost link at or after `from`, or reports that
      there is none. */
  lemma {:induction false} ExecLeftmost(line: string, from: nat)
    requires from <= |line|
    ensures var m := ExecFrom(line, from);
            && (m.Some? ==> LinkAt(line, m.value.start) == m && forall j :: from <= j < m.value.start ==> LinkAt(line, j).None?)
            && (m.None? ==> forall j :: from <= j <= |line| ==> LinkAt(line, j).None?)
  {
    var here := (j: nat) => if j <= |line| then LinkAt(line, j) else None;
    var search := (j: nat) => if j <= |line| then ExecFrom(line, j) else None;
    forall j | from <= j <= |line|
      ensures search(j) == (if here(j).Some? || j == |line| then here(j) else search(j + 1))
      ensures here(j).Some? ==> here(j).value.start == j
    {
    }
    SearchChain(|line|, from, here, search);
    var m := ExecFrom(line, from);
    assert search(from) == m;
    if m.Some? {
      assert here(m.value.start) == LinkAt(line, m.value.start);
      forall j | from <= j < m.value.start ensures LinkAt(line, j).None? {
        assert here(j).None?;
      }
    } else {
      forall j | from <= j <= |line| ensures LinkAt(line, j).None? {
        assert here(j).None?;
      }
    }
  }

  /** A search that tries each position in turn, up to `n`, stops at the
      first position that has a match. */
  lemma {:induction false} SearchChain(n: nat, from: nat, here: nat -> Option<LinkMatch>, search: nat -> Option<LinkMatch>)
    requires from <= n
    requires forall j {:trigger here(j)} :: from <= j <= n ==> search(j) == (if here(j).Some? || j == n then here(j) else search(j + 1))
    requires forall j :: from <= j <= n ==> here(j).Some? ==> here(j).value.start == j
    ensures search(from).Some? ==>
              from <= search(from).value.start <= n && here(search(from).value.start) == search(from)
              && forall j :: from <= j < search(from).value.start ==> here(j).None?
    ensures search(from).None? ==> forall j :: from <= j <= n ==> here(j).None?
    decreases n - from
  {
    if here(from).None? && from < n {
      SearchChain(n, from + 1, here, search);
      if search(from).Some? {
        forall j | from <= j < search(from).value.start ensures here(j).None? {
          if j > from {
            assert from + 1 <= j < search(from + 1).value.start;
          }
        }
      } else {
        forall j | from <= j <= n ensures here(j).None? {
          if j > from {
            assert from + 1 <= j <= n;
          }
        }
      }
    }
  }

  /** The links of a line are matches of the pattern, in order and
      without overlap, each starting at or after `from`. */
  lemma {:induction false} LinksOrdered(line: string, from: nat)
    requires from <= |line|
    ensures var ms := LinksFrom(line, from);
            && (forall k :: 0 <= k < |ms| ==> from <= ms[k].start < ms[k].end <= |line| && LinkAt(line, ms[k].start) == Some(ms[k]))
            && (forall k :: 0 <= k < |ms| - 1 ==> ms[k].end <= ms[k + 1].start)
  {
    var ms := LinksFrom(line, from);
    forall k | 0 <= k < |ms|
      ensures from <= ms[k].start < ms[k].end <= |line| && LinkAt(line, ms[k].start) == Some(ms[k])
      ensures k < |ms| - 1 ==> ms[k].end <= ms[k + 1].start
    {
      LinkOrderedAt(line, from, k);
    }
  }

  lemma {:induction false} LinkOrderedAt(line: string, from: nat, k: nat)
    requires from <= |line| && k < |LinksFrom(line, from)|
    ensures var ms := LinksFrom(line, from);
            && from <= ms[k].start < ms[k].end <= |line| && LinkAt(line, ms[k].start) == Some(ms[k])
            && (k < |ms| - 1 ==> ms[k].end <= ms[k + 1].start)
    decreases |line| - from
  {
    var ms := LinksFrom(line, from);
    ExecLeftmost(line, from);
    var m := ExecFrom(line, from).value;
    var tail := LinksFrom(line, m.end);
    assert ms == [m] + tail;
    if k > 0 {
      LinkOrderedAt(line, m.end, k - 1);
      assert ms[k] == tail[k - 1];
      if k < |ms| - 1 {
        assert ms[k + 1] == tail[k];
      }
    } else if |tail| > 0 {
      LinkOrderedAt(line, m.end, 0);
      assert ms[1] == tail[0];
    }
  }

  lemma {:induction false} ReportsFacts(file: string, lineNumber: nat, links: seq<LinkMatch>)
    ensures var r := Reports(file, lineNumber, links);
            forall k :: 0 <= k < |r| ==> r[k] == ValidationResult(file, lineNumber, links[k].link, links[k].target)
    decreases |links|
  {
    if links != [] {
      ReportsFacts(file, lineNumber, links[1..]);
      var r := Reports(file, lineNumber, links);
      forall k | 1 <= k < |r| ensures r[k] == ValidationResult(file, lineNumber, links[k].link, links[k].target) {
        assert r[k] == Reports(file, lineNumber, links[1..])[k - 1];
      }
    }
  }

  /** Every report names `file` and a line number from `lo` to `hi`. */
  predicate LinesWithin(r: seq<ValidationResult>, file: string, lo: nat, hi: nat)
  {
    forall k :: 0 <= k < |r| ==> r[k].file == file && lo <= r[k].line <= hi
  }

  /** Reports come in line order. */
  predicate LinesSorted(r: seq<ValidationResult>)
  {
    forall a, b :: 0 <= a <= b < |r| ==> r[a].line <= r[b].line
  }

  /** The reports from line `i` on name the file, carry a line number
      between `i + 1` and the number of lines, and come in line order. */
  lemma {:induction false} LinesReportsFacts(file: string, lines: seq<string>, i: nat)
    requires i <= |lines|
    ensures LinesWithin(LinesReports(file, lines, i), file, i + 1, |lines|)
    ensures LinesSorted(LinesReports(file, lines, i))
    decreases |lines| - i
  {
    if i < |lines| {
      var links := LinksFrom(lines[i], 0);
      var here := Reports(file, i + 1, links);
      var rest := LinesReports(file, lines, i + 1);
      LinesReportsFacts(file, lines, i + 1);
      ReportsFacts(file, i + 1, links);
      assert LinesReports(file, lines, i) == here + rest;
      ReportsThenLater(here, rest, file, i + 1, |lines|);
    }
  }

  /** The reports of one line followed by those of later lines. */
  lemma {:induction false} ReportsThenLater(here: seq<ValidationResult>, rest: seq<ValidationResult>, file: string, lo: nat, hi: nat)
    requires lo <= hi
    requires LinesWithin(here, file, lo, lo)
    requires LinesWithin(rest, file, lo + 1, hi) && LinesSorted(rest)
    ensures LinesWithin(here + rest, file, lo, hi) && LinesSorted(here + rest)
  {
    var r := here + rest;
    forall k | 0 <= k < |r| ensures r[k].file == file && lo <= r[k].line <= hi {
      if k >= |here| {
        assert r[k] == rest[k - |here|];
      } else {
        assert r[k] == here[k];
      }
    }
    forall a, b | 0 <= a <= b < |r| ensures r[a].line <= r[b].line {
      if a >= |here| {
        assert r[a] == rest[a - |here|] && r[b] == rest[b - |here|];
      } else if b >= |here| {
        assert r[a] == here[a] && r[b] == rest[b - |here|];
      } else {
        assert r[a] == here[a] && r[b] == here[b];
      }
    }
  }

  /** `findInternalLinks`: every report names the file and a 1-based line
      number within the content, and reports come in line order. */
  lemma {:induction false} InternalLinksLines(content: string, filePath: string)
    ensures var r := InternalLinks(content, filePath);
            && (forall k :: 0 <= k < |r| ==> r[k].file == filePath && 1 <= r[k].line <= |Split(content, {'\n'})|)
            && (forall a, b :: 0 <= a <= b < |r| ==> r[a].line <= r[b].line)
  {
    LinesReportsFacts(filePath, Split(content, {'\n'}), 0);
  }

  // The content tree.

  /** An entry `readdir` returns: a directory with its own entries, a
      regular file, or anything else (a link, a device), which is neither. */
  datatype Entry = FileEntry(name: string) | DirEntry(name: string, entries: seq<Entry>) | OtherEntry(name: string)

  /** What `traverse` pushes for entries `i` on of a directory at `dir`. */
  function MarkdownFiles(dir: string, entries: seq<Entry>, i: nat): seq<string>
    requires i <= |entries|
    decreases entries, |entries| - i
  {
    if i == |entries| then []
    else
      var entry := entries[i];
      var fullPath := PathJoin(dir, entry.name);
      var here :=
        match entry
        case DirEntry(_, children) =>
          MarkdownFiles(fullPath, children, 0)
        case FileEntry(name) => if EndsWith(name, ".md") then [fullPath] else []
        case OtherEntry(_) => [];
      here + MarkdownFiles(dir, entries, i + 1)
  }

  /** Every entry of the tree with its path, depth first in `readdir`
      order, a directory before what it holds. */
  function Walk(dir: string, entries: seq<Entry>, i: nat): seq<(string, Entry)>
    requires i <= |entries|
    decreases entries, |entries| - i
  {
    if i == |entries| then []
    else
      var entry := entries[i];
      var fullPath := PathJoin(dir, entry.name);
      var below :=
        if entry.DirEntry? then
          Walk(fullPath, entry.entries, 0)
        else [];
      [(fullPath, entry)] + below + Walk(dir, entries, i + 1)
  }

  /** The paths of the regular `.md` files among walked entries. */
  function MarkdownPaths(walked: seq<(string, Entry)>): seq<string>
  {
    if walked == [] then []
    else
      var (path, entry) := walked[0];
      (if entry.FileEntry? && EndsWith(entry.name, ".md") then [path] else []) + MarkdownPaths(walked[1..])
  }

  lemma {:induction false} MarkdownPathsConcat(a: seq<(string, Entry)>, b: seq<(string, Entry)>)
    ensures MarkdownPaths(a + b) == MarkdownPaths(a) + MarkdownPaths(b)
    decreases |a|
  {
    if a != [] {
      assert (a + b)[1..] == a[1..] + b;
      MarkdownPathsConcat(a[1..], b);
    } else {
      assert a + b == b;
    }
  }

  /** `getMarkdownFiles` returns exactly the regular files whose name ends
      in `.md`, in the depth-first order of the walk; every directory is
      descended, whatever its name. */
  lemma {:induction false} MarkdownFilesAreWalked(dir: string, entries: seq<Entry>, i: nat)
    requires i <= |entries|
    ensures MarkdownFiles(dir, entries, i) == MarkdownPaths(Walk(dir, entries, i))
    decreases entries, |entries| - i
  {
    if i < |entries| {
      var entry := entries[i];
      var fullPath := PathJoin(dir, entry.name);
      var below := if entry.DirEntry? then Walk(fullPath, entry.entries, 0) else [];
      var rest := Walk(dir, entries, i + 1);
      MarkdownFilesAreWalked(dir, entries, i + 1);
      if entry.DirEntry? {
        MarkdownFilesAreWalked(fullPath, entry.entries, 0);
      }
      MarkdownPathsConcat([(fullPath, entry)] + below, rest);
      MarkdownPathsConcat([(fullPath, entry)], below);
      assert MarkdownPaths([(fullPath, entry)]) == (if entry.FileEntry? && EndsWith(entry.name, ".md") then [fullPath] else []) by {
        assert [(fullPath, entry)][1..] == [];
      }
    }
  }

  /** The `files` array `getMarkdownFiles` fills. */
  class MarkdownCollector {
    var files: seq<string>

    constructor ()
      ensures files == []
    {
      files := [];
    }

    /** `traverse(currentDir)` over the entries `readdir` returned for it. */
    method Traverse(currentDir: string, entries: seq<Entry>)
      modifies this
      ensures files == old(files) + MarkdownFiles(currentDir, entries, 0)
      decreases entries
    {
      var i := 0;
      while i < |entries|
        invariant 0 <= i <= |entries|
        invariant old(files) + MarkdownFiles(currentDir, entries, 0) == files + MarkdownFiles(currentDir, entries, i)
      {
        var entry := entries[i];
        var fullPath := PathJoin(currentDir, entry.name);
        ghost var before := files;
        if entry.DirEntry? {
          Traverse(fullPath, entry.entries);
        } else if entry.FileEntry? && EndsWith(entry.name, ".md") {
          files := files + [fullPath];
        }
        MarkdownFilesStep(currentDir, entries, i, before, files);
        i := i + 1;
      }
      assert files + [] == files;
    }
  }

  lemma {:induction false} MarkdownFilesStep(dir: string, entries: seq<Entry>, i: nat, before: seq<string>, after: seq<string>)
    requires i < |entries|
    requires var entry := entries[i];
             var fullPath := PathJoin(dir, entry.name);
             after == before + (match entry
                                case DirEntry(_, children) => MarkdownFiles(fullPath, children, 0)
                                case FileEntry(name) => if EndsWith(name, ".md") then [fullPath] else []
                                case OtherEntry(_) => [])
    ensures before + MarkdownFiles(dir, entries, i) == after + MarkdownFiles(dir, entries, i + 1)
  {
    var entry := entries[i];
    var fullPath := PathJoin(dir, entry.name);
    var here := match entry
                case DirEntry(_, children) => MarkdownFiles(fullPath, children, 0)
                case FileEntry(name) => if EndsWith(name, ".md") then [fullPath] else []
                case OtherEntry(_) => [];
    assert MarkdownFiles(dir, entries, i) == here + MarkdownFiles(dir, entries, i + 1);
    assert before + (here + MarkdownFiles(dir, entries, i + 1)) == (before + here) + MarkdownFiles(dir, entries, i + 1);
  }

  /** `getMarkdownFiles(dir)`, given the entries under `dir`. */
  method GetMarkdownFiles(dir: string, entries: seq<Entry>) returns (files: seq<string>)
    ensures files == MarkdownPaths(Walk(dir, entries, 0))
  {
    var collector := new MarkdownCollector();
    collector.Traverse(dir, entries);
    files := collector.files;
    MarkdownFilesAreWalked(dir, entries, 0);
  }

  // The check over the whole content tree.

  /** The non-empty paths `pathOf` gives for `files`, collected as the
      loop over them adds each one. */
  function NonEmptyPaths(files: seq<string>, pathOf: string -> string): set<string>
  {
    if files == [] then {}
    else
      var path := pathOf(files[|files| - 1]);
      NonEmptyPaths(files[..|files| - 1], pathOf) + (if path != [] then {path} else {})
  }

  /** The set of pages the site serves: the non-empty paths
      `getPathFromFile` gives for the markdown files. */
  function ValidPaths(files: seq<string>): set<string>
  {
    NonEmptyPaths(files, GetPathFromFile)
  }

  /** Every internal link of every file, file by file in order. */
  function AllLinks(files: seq<string>, contents: seq<string>): seq<ValidationResult>
    requires |contents| == |files|
  {
    if files == [] then []
    else
      var n := |files| - 1;
      AllLinks(files[..n], contents[..n]) + InternalLinks(contents[n], files[n])
  }

  /** The links whose target is not a served page, in the order found. */
  function Broken(links: seq<ValidationResult>, valid: set<string>): seq<ValidationResult>
  {
    if links == [] then []
    else
      var last := links[|links| - 1];
      Broken(links[..|links| - 1], valid) + (if last.target in valid then [] else [last])
  }

  /** A page is valid exactly when some markdown file maps to it, and the
      empty path never is. */
  lemma {:induction false} ValidPathsMembers(files: seq<string>, path: string)
    ensures path in ValidPaths(files) <==>
            path != [] && exists k :: 0 <= k < |files| && GetPathFromFile(files[k]) == path
  {
    NonEmptyPathsMembers(files, GetPathFromFile, path);
  }

  lemma {:induction false} NonEmptyPathsMembers(files: seq<string>, pathOf: string -> string, path: string)
    ensures path in NonEmptyPaths(files, pathOf) <==>
            path != [] && exists k :: 0 <= k < |files| && pathOf(files[k]) == path
    decreases |files|
  {
    if files != [] {
      var n := |files| - 1;
      NonEmptyPathsMembers(files[..n], pathOf, path);
      if path in NonEmptyPaths(files, pathOf) {
        if path in NonEmptyPaths(files[..n], pathOf) {
          var k :| 0 <= k < n && pathOf(files[..n][k]) == path;
          assert files[..n][k] == files[k];
        } else {
          assert pathOf(files[n]) == path;
        }
      }
      if path != [] && exists k :: 0 <= k < |files| && pathOf(files[k]) == path {
        var k :| 0 <= k < |files| && pathOf(files[k]) == path;
        if k < n {
          assert files[..n][k] == files[k];
        }
      }
    }
  }

  /** A numbered content file makes its category page valid. */
  lemma NumberedPageValid(files: seq<string>, k: nat, pre: string, category: string, digits: string, name: string)
    requires k < |files|
    requires files[k] == pre + ContentRoot + NumberedTail(category, digits, name)
    requires !Contains(pre, ContentRoot)
    requires category != [] && AllIn(category, AnyButLineTerminator)
    requires digits != [] && AllDigits(digits)
    requires name != [] && AllIn(name, AnyButLineTerminator) && AllIn(name, Except({'/'}))
    ensures "/moat/" + category + "/" + name in ValidPaths(files)
  {
    NumberedFileServed(pre, category, digits, name);
    ValidPathsMembers(files, "/moat/" + category + "/" + name);
  }

  lemma {:induction false} BrokenConcat(a: seq<ValidationResult>, b: seq<ValidationResult>, valid: set<string>)
    ensures Broken(a + b, valid) == Broken(a, valid) + Broken(b, valid)
    decreases |b|
  {
    if b == [] {
      assert a + b == a;
    } else {
      var n := |b| - 1;
      assert (a + b)[..|a + b| - 1] == a + b[..n];
      BrokenConcat(a, b[..n], valid);
    }
  }

  /** A link is reported broken exactly when it is one of the links and
      its target is not a valid page. */
  lemma {:induction false} BrokenMembers(links: seq<ValidationResult>, valid: set<string>, r: ValidationResult)
    ensures r in Broken(links, valid) <==> r in links && r.target !in valid
    decreases |links|
  {
    if links != [] {
      var n := |links| - 1;
      BrokenMembers(links[..n], valid, r);
      assert links == links[..n] + [links[n]];
    }
  }

  /** No link is broken exactly when every link's target is valid. */
  lemma {:induction false} NoneBroken(links: seq<ValidationResult>, valid: set<string>)
    ensures Broken(links, valid) == [] <==> forall k :: 0 <= k < |links| ==> links[k].target in valid
    decreases |links|
  {
    if links != [] {
      var n := |links| - 1;
      NoneBroken(links[..n], valid);
      if Broken(links, valid) == [] {
        forall k | 0 <= k < |links|
          ensures links[k].target in valid
        {
          if k < n {
            assert links[k] == links[..n][k];
          }
        }
      }
      if forall k :: 0 <= k < |links| ==> links[k].target in valid {
        forall k | 0 <= k < n
          ensures links[..n][k].target in valid
        {
          assert links[..n][k] == links[k];
        }
      }
    }
  }

  /** The pushes of one file's links: the broken ones, appended in order. */
  method CollectBroken(links: seq<ValidationResult>, validPaths: set<string>, brokenLinks: seq<ValidationResult>)
    returns (collected: seq<ValidationResult>)
    ensures collected == brokenLinks + Broken(links, validPaths)
  {
    collected := brokenLinks;
    var j := 0;
    while j < |links|
      invariant 0 <= j <= |links|
      invariant collected == brokenLinks + Broken(links[..j], validPaths)
    {
      assert links[..j + 1][..j] == links[..j];
      if links[j].target !in validPaths {
        collected := collected + [links[j]];
      }
      j := j + 1;
    }
    assert links[..j] == links;
  }

  lemma ValidPathsStep(files: seq<string>, i: nat)
    requires i < |files|
    ensures ValidPaths(files[..i + 1]) ==
            ValidPaths(files[..i]) + (if GetPathFromFile(files[i]) != [] then {GetPathFromFile(files[i])} else {})
  {
    NonEmptyPathsStep(files, GetPathFromFile, i);
  }

  lemma NonEmptyPathsStep(files: seq<string>, pathOf: string -> string, i: nat)
    requires i < |files|
    ensures NonEmptyPaths(files[..i + 1], pathOf) ==
            NonEmptyPaths(files[..i], pathOf) + (if pathOf(files[i]) != [] then {pathOf(files[i])} else {})
  {
    assert files[..i + 1][..i] == files[..i];
  }

  lemma AllLinksStep(files: seq<string>, contents: seq<string>, i: nat)
    requires |contents| == |files| && i < |files|
    ensures AllLinks(files[..i + 1], contents[..i + 1]) ==
            AllLinks(files[..i], contents[..i]) + InternalLinks(contents[i], files[i])
  {
    assert files[..i + 1][..i] == files[..i];
    assert contents[..i + 1][..i] == contents[..i];
  }

  /** `main`: build the set of valid pages, then gather the broken links
      of every file; the exit code is 0 exactly when there are none.
      `contents[k]` is what reading `files[k]` gave. */
  method CheckLinks(files: seq<string>, contents: seq<string>)
    returns (validPaths: set<string>, brokenLinks: seq<ValidationResult>, exitCode: int)
    requires |contents| == |files|
    ensures validPaths == ValidPaths(files)
    ensures brokenLinks == Broken(AllLinks(files, contents), validPaths)
    ensures exitCode == 0 || exitCode == 1
    ensures exitCode == 0 <==> forall k :: 0 <= k < |AllLinks(files, contents)| ==> AllLinks(files, contents)[k].target in validPaths
  {
    validPaths := {};
    var i := 0;
    while i < |files|
      invariant 0 <= i <= |files|
      invariant validPaths == ValidPaths(files[..i])
    {
      ValidPathsStep(files, i);
      var path := GetPathFromFile(files[i]);
      if path != [] {
        validPaths := validPaths + {path};
      }
      i := i + 1;
    }
    assert files[..i] == files;
    brokenLinks := [];
    i := 0;
    while i < |files|
      invariant 0 <= i <= |files|
      invariant brokenLinks == Broken(AllLinks(files[..i], contents[..i]), validPaths)
    {
      AllLinksStep(files, contents, i);
      var links := FindInternalLinks(contents[i], files[i]);
      BrokenConcat(AllLinks(files[..i], contents[..i]), links, validPaths);
      brokenLinks := CollectBroken(links, validPaths, brokenLinks);
      i := i + 1;
    }
    assert contents[..i] == contents;
    NoneBroken(AllLinks(files, contents), validPaths);
    if |brokenLinks| == 0 {
      exitCode := 0;
    } else {
      exitCode := 1;
    }
  }
}
