/** SHA256SUMS.txt: the printer of the release build and the parser and checker of its recipients. */
module SourceChecksums {
  import opened Text
  import opened Collections
  import opened StringOrder

  /** A working tree: regular files with their contents, and symbolic links. */
  datatype Tree = Tree(files: map<string, string>, links: set<string>)

  // ---------------------------------------------------------------- lines

  /** The characters that end a line for `str.splitlines`. */
  predicate Break(c: char) {
    var n := c as int;
    0x0a <= n <= 0x0d || 0x1c <= n <= 0x1e || n == 0x85 || n == 0x2028 || n == 0x2029
  }

  function LineEnd(s: string): (n: nat)
    ensures n <= |s|
    ensures n < |s| ==> Break(s[n])
  {
    if s == "" || Break(s[0]) then 0 else 1 + LineEnd(s[1..])
  }

  function SplitLines(s: string): seq<string>
    decreases |s|
  {
    if s == "" then []
    else
      var n := LineEnd(s);
      if n == |s| then [s]
      else if s[n] == '\r' && n + 1 < |s| && s[n + 1] == '\n' then [s[..n]] + SplitLines(s[n + 2..])
      else [s[..n]] + SplitLines(s[n + 1..])
  }

  ghost predicate OneLine(s: string) {
    forall i :: 0 <= i < |s| ==> !Break(s[i])
  }

  lemma {:induction false} LineEndOf(line: string, c: char, rest: string)
    requires OneLine(line) && Break(c)
    ensures LineEnd(line + [c] + rest) == |line|
  {
    var s := line + [c] + rest;
    if line != "" {
      assert s[0] == line[0];
      assert s[1..] == line[1..] + [c] + rest;
      LineEndOf(line[1..], c, rest);
    }
  }

  /** The line breaks, code point by code point. */
  lemma BreakTable(c: char)
    ensures Break(c) <==> c as int in {0x0a, 0x0b, 0x0c, 0x0d, 0x1c, 0x1d, 0x1e, 0x85, 0x2028, 0x2029}
  {}

  /** A line ends at its line break. */
  lemma SplitAt(line: string, c: char, rest: string)
    requires OneLine(line) && Break(c) && !(c == '\r' && rest != "" && rest[0] == '\n')
    ensures SplitLines(line + [c] + rest) == [line] + SplitLines(rest)
  {
    var s, n := line + [c] + rest, |line|;
    LineEndOf(line, c, rest);
    assert s[..n] == line && s[n + 1..] == rest && s[n] == c;
  }

  /** A carriage return takes a newline behind it along. */
  lemma SplitAtBoth(line: string, rest: string)
    requires OneLine(line)
    ensures SplitLines(line + ['\r', '\n'] + rest) == [line] + SplitLines(rest)
  {
    var s, n := line + ['\r', '\n'] + rest, |line|;
    assert s == line + ['\r'] + (['\n'] + rest);
    LineEndOf(line, '\r', ['\n'] + rest);
    assert s[..n] == line && s[n + 2..] == rest && s[n] == '\r' && s[n + 1] == '\n';
  }

  lemma SplitFirst(line: string, rest: string)
    requires OneLine(line)
    ensures SplitLines(line + ['\n'] + rest) == [line] + SplitLines(rest)
  {
    SplitAt(line, '\n', rest);
  }

  /** A last line needs no line break. */
  lemma SplitLast(line: string)
    requires OneLine(line) && line != ""
    ensures SplitLines(line) == [line]
  {
    NoLineEnd(line);
  }

  lemma {:induction false} NoLineEnd(line: string)
    requires OneLine(line)
    ensures LineEnd(line) == |line|
  {
    if line != "" {
      NoLineEnd(line[1..]);
    }
  }

  // ---------------------------------------------------------------- printing

  function Line(digest: string -> string, name: string, content: string): string {
    digest(content) + "  ./" + name
  }

  function Lines(digest: string -> string, files: map<string, string>, names: seq<string>): seq<string>
    requires forall n :: n in names ==> n in files
  {
    seq(|names|, i requires 0 <= i < |names| => Line(digest, names[i], files[names[i]]))
  }

  /** The text of the file: the lines joined by newlines, and one at the end. */
  function Printed(lines: seq<string>): string {
    Join(lines, '\n') + ['\n']
  }

  const CHECKSUMS := "SHA256SUMS.txt"

  /** Every tracked name except the checksum file itself; a link or a missing file is an error. */
  method Generate(digest: string -> string, tree: Tree, tracked: seq<string>) returns (text: Option<string>)
    requires Distinct(tracked)
    ensures text.Some? <==> forall n :: n in tracked && n != CHECKSUMS ==> n in tree.files && n !in tree.links
    ensures text.Some? ==>
              exists names :: Ascending(names) && (forall n :: n in names <==> n in tracked && n != CHECKSUMS) &&
                             (forall n :: n in names ==> n in tree.files) &&
                             text.value == Printed(Lines(digest, tree.files, names))
  {
    var errors := 0;
    var listed: seq<string> := [];
    for i := 0 to |tracked|
      invariant errors >= 0
      invariant errors == 0 <==>
                forall k :: 0 <= k < i && tracked[k] != CHECKSUMS ==>
                  tracked[k] in tree.files && tracked[k] !in tree.links
      invariant forall n :: n in listed ==>
                  n in tree.files && n != CHECKSUMS && exists k :: 0 <= k < i && tracked[k] == n
      invariant errors == 0 ==> forall k :: 0 <= k < i && tracked[k] != CHECKSUMS ==> tracked[k] in listed
      invariant Distinct(listed)
    {
      var name := tracked[i];
      if name == CHECKSUMS {
        continue;
      }
      if name in tree.links || name !in tree.files {
        errors := errors + 1;
      } else {
        listed := listed + [name];
      }
    }
    if errors > 0 {
      return None;
    }
    var names := Sort(listed);
    text := Some(Printed(Lines(digest, tree.files, names)));
  }

  // ---------------------------------------------------------------- parsing

  predicate HexDigest(s: string) {
    |s| == 64 && forall i :: 0 <= i < 64 ==> '0' <= s[i] <= '9' || 'a' <= s[i] <= 'f'
  }

  /** A line of the file, as digest and name. */
  function ParseLine(line: string): Option<(string, string)> {
    if |line| > 68 && HexDigest(line[..64]) && line[64..68] == "  ./" && '\n' !in line[68..]
    then Some((line[..64], line[68..]))
    else None
  }

  /** Absolute, or with a parent component. */
  predicate Unsafe(name: string) {
    (name != "" && name[0] == '/') || ".." in Split(name, '/')
  }

  /** The lines that are read, and as what: 64 hexadecimal digits, two blanks, and a relative name. */
  lemma ParseLineIff(line: string, sha: string, name: string)
    ensures ParseLine(line) == Some((sha, name)) <==>
            line == sha + "  ./" + name && |sha| == 64 && name != "" && '\n' !in name &&
            forall i :: 0 <= i < |sha| ==> sha[i] in {'0', '1', '2', '3', '4', '5', '6', '7', '8', '9',
                                                      'a', 'b', 'c', 'd', 'e', 'f'}
  {
    if |line| > 68 && ParseLine(line) == Some((sha, name)) {
      assert line == line[..64] + line[64..68] + line[68..];
    }
    if line == sha + "  ./" + name && |sha| == 64 {
      assert line[..64] == sha && line[64..68] == "  ./" && line[68..] == name;
    }
  }

  /** A name is refused exactly when it begins with a slash or has `..` between slashes or at an end. */
  lemma UnsafeIff(name: string)
    ensures Unsafe(name) <==> (exists rest :: name == "/" + rest) || PartOf("..", name, '/')
  {
    PartIff("..", name, '/');
    if name != "" && name[0] == '/' {
      assert name == "/" + name[1..];
    }
  }

  datatype Parsed = Parsed(entries: map<string, string>, clean: bool)

  function AddLine(p: Parsed, line: string): Parsed {
    if PythonStrip(line) == "" then p
    else
      match ParseLine(line)
      case None => p.(clean := false)
      case Some((sha, name)) =>
        if Unsafe(name) then p.(clean := false)
        else Parsed(p.entries[name := sha], p.clean && name !in p.entries)
  }

  function Fold(add: (Parsed, string) -> Parsed, lines: seq<string>): Parsed {
    if lines == [] then Parsed(map[], true) else add(Fold(add, lines[..|lines| - 1]), lines[|lines| - 1])
  }

  function Parse(lines: seq<string>): Parsed {
    Fold(AddLine, lines)
  }

  // ---------------------------------------------------------------- what is checked

  const EXCLUDED_DIRS: set<string> := {
    ".git", ".tools", ".secrets", ".release-candidate-evidence", "security-reports", "security-artifacts",
    "release-bundle", "release-candidate-bundle", "backups", "node_modules", "dist", "playwright-report",
    "test-results", "__pycache__"}

  const EXCLUDED_FILES: set<string> := {CHECKSUMS, "cpim-mes-v0.42.0-security-release-bundle.tar.gz"}

  /** Paths that belong to the source archive, given what git ignores. */
  predicate Included(ignoredFiles: set<string>, ignoredDirs: set<string>, path: string) {
    path !in ignoredFiles && (forall d :: d in ignoredDirs ==> !(d <= path)) &&
    Kept(EXCLUDED_FILES, EXCLUDED_DIRS, path)
  }

  predicate Kept(files: set<string>, dirs: set<string>, path: string) {
    var parts := Split(path, '/');
    var name := parts[|parts| - 1];
    name !in files && (forall i :: 0 <= i < |parts| ==> parts[i] !in dirs) &&
    !(|name| > 4 && name[|name| - 4..] == ".pyc")
  }

  /** Which paths belong to the archive: those that git does not ignore, outside the excluded
      directories at any depth, and with a last component that is neither an excluded file nor
      compiled Python. */
  lemma IncludedIff(ignoredFiles: set<string>, ignoredDirs: set<string>, directory: string, name: string)
    requires '/' !in name && (directory == "" || directory[|directory| - 1] == '/')
    ensures var path := directory + name;
            Included(ignoredFiles, ignoredDirs, path) <==>
            path !in ignoredFiles && (forall d :: d in ignoredDirs ==> !exists rest :: path == d + rest) &&
            (forall d :: d in EXCLUDED_DIRS ==> !PartOf(d, path, '/')) &&
            name != "SHA256SUMS.txt" && name != "cpim-mes-v0.42.0-security-release-bundle.tar.gz" &&
            !exists stem :: stem != "" && name == stem + ".pyc"
  {
    var path := directory + name;
    KeptIff(EXCLUDED_FILES, EXCLUDED_DIRS, directory, name);
    forall d | d in ignoredDirs ensures d <= path <==> exists rest :: path == d + rest {
      if d <= path {
        assert path == d + path[|d|..];
      }
    }
  }

  lemma KeptIff(files: set<string>, dirs: set<string>, directory: string, name: string)
    requires '/' !in name && (directory == "" || directory[|directory| - 1] == '/')
    ensures Kept(files, dirs, directory + name) <==>
            (forall d :: d in dirs ==> !PartOf(d, directory + name, '/')) && name !in files &&
            !exists stem :: stem != "" && name == stem + ".pyc"
  {
    var path := directory + name;
    LastPart(directory, name);
    forall d | d in dirs ensures PartOf(d, path, '/') <==> d in Split(path, '/') {
      PartIff(d, path, '/');
    }
    CompiledIff(name);
  }

  lemma LastPart(directory: string, name: string)
    requires '/' !in name && (directory == "" || directory[|directory| - 1] == '/')
    ensures var parts := Split(directory + name, '/'); parts[|parts| - 1] == name
  {
    if directory == "" {
      assert directory + name == name;
      SplitSolid(name, '/');
    } else {
      var k := |directory| - 1;
      assert directory + name == directory[..k] + ['/'] + name;
      SplitSuffix(directory[..k], name, '/');
    }
  }

  lemma CompiledIff(name: string)
    ensures (|name| > 4 && name[|name| - 4..] == ".pyc") <==> exists stem :: stem != "" && name == stem + ".pyc"
  {
    if |name| > 4 && name[|name| - 4..] == ".pyc" {
      var stem := name[..|name| - 4];
      assert name == stem + ".pyc" && stem != "";
    }
  }

  lemma ParseSnoc(lines: seq<string>, i: nat)
    requires i < |lines|
    ensures Parse(lines[..i + 1]) == AddLine(Parse(lines[..i]), lines[i])
  {
    assert lines[..i + 1][..i] == lines[..i];
  }

  /** The loop over the lines. */
  method ParseLines(lines: seq<string>) returns (entries: map<string, string>, errors: nat)
    ensures Parse(lines) == Parsed(entries, errors == 0)
  {
    errors, entries := 0, map[];
    for i := 0 to |lines|
      invariant Parse(lines[..i]) == Parsed(entries, errors == 0)
    {
      ParseSnoc(lines, i);
      if PythonStrip(lines[i]) == "" {
        continue;
      }
      var parsed := ParseLine(lines[i]);
      if parsed.None? {
        errors := errors + 1;
        continue;
      }
      var (sha, name) := parsed.value;
      if Unsafe(name) {
        errors := errors + 1;
        continue;
      }
      if name in entries {
        errors := errors + 1;
      }
      entries := entries[name := sha];
    }
    assert lines[..|lines|] == lines;
  }

  /** Parsing line by line, then comparing with the tree both ways and file by file. */
  method Verify(digest: string -> string, included: string -> bool, tree: Tree, text: string) returns (pass: bool)
    ensures pass <==> Passes(digest, included, tree, text)
  {
    var entries, errors := ParseLines(SplitLines(text));
    var linked := set l | l in tree.links && included(l);
    var actual := map n | n in tree.files && included(n) :: tree.files[n];
    if linked != {} || entries.Keys != actual.Keys {
      errors := errors + 1;
    }
    var mismatched := set n | n in entries && n in actual && digest(actual[n]) != entries[n];
    if mismatched != {} {
      errors := errors + 1;
    }
    pass := errors == 0;
    SetsEmpty(tree.links, included);
    Mismatches(digest, entries, actual, mismatched);
  }

  lemma SetsEmpty(links: set<string>, included: string -> bool)
    ensures (set l | l in links && included(l)) == {} <==> forall l :: l in links ==> !included(l)
  {
    var linked := set l | l in links && included(l);
    forall l | l in links && included(l) ensures l in linked {}
  }

  lemma Mismatches(digest: string -> string, entries: map<string, string>, actual: map<string, string>,
                   mismatched: set<string>)
    requires mismatched == set n | n in entries && n in actual && digest(actual[n]) != entries[n]
    ensures mismatched == {} <==> forall n :: n in entries && n in actual ==> digest(actual[n]) == entries[n]
  {
    forall n | n in entries && n in actual && digest(actual[n]) != entries[n] ensures n in mismatched {}
  }

  /** The regular files of a tree that belong to the archive. */
  function Actual(included: string -> bool, tree: Tree): map<string, string> {
    map n | n in tree.files && included(n) :: tree.files[n]
  }

  ghost predicate Passes(digest: string -> string, included: string -> bool, tree: Tree, text: string) {
    var p := Parse(SplitLines(text));
    var actual := Actual(included, tree);
    p.clean && (forall l :: l in tree.links ==> !included(l)) && p.entries.Keys == actual.Keys &&
    forall n :: n in p.entries && n in actual ==> digest(actual[n]) == p.entries[n]
  }

  // ---------------------------------------------------------------- round trip

  /** Names that survive the file: on one line, not empty, relative, without parent components. */
  ghost predicate Plain(name: string) {
    name != "" && OneLine(name) && !Unsafe(name)
  }

  ghost predicate HexDigests(digest: string -> string) {
    forall c :: HexDigest(digest(c))
  }

  lemma HexDigestsExist()
    ensures HexDigests(s => seq(64, i => 'f'))
  {}

  function Digests(digest: string -> string, files: map<string, string>, names: seq<string>): map<string, string>
    requires forall n :: n in names ==> n in files
  {
    map n | n in names :: digest(files[n])
  }

  lemma LineParses(digest: string -> string, name: string, content: string)
    requires HexDigests(digest) && Plain(name)
    ensures var line := Line(digest, name, content);
            ParseLine(line) == Some((digest(content), name)) && OneLine(line) && PythonStrip(line) != ""
  {
    var d := digest(content);
    var line := Line(digest, name, content);
    assert HexDigest(d);
    assert line[..64] == d && line[64..68] == "  ./" && line[68..] == name;
    assert '\n' !in name by {
      if '\n' in name {
        var i :| 0 <= i < |name| && name[i] == '\n';
        assert Break(name[i]);
      }
    }
    forall i | 0 <= i < |line| ensures !Break(line[i]) {
      if i < 64 {
        assert line[i] == d[i];
      } else if i >= 68 {
        assert line[i] == name[i - 68];
      }
    }
    TrimEmptyIff(PythonSpace, line);
    assert line[0] == d[0] && line[0] in line;
  }

  lemma PrintedCons(lines: seq<string>)
    requires lines != []
    ensures Printed(lines) == lines[0] + ['\n'] + if |lines| == 1 then "" else Printed(lines[1..])
  {
    if |lines| > 1 {
      assert Printed(lines) == lines[0] + ['\n'] + Join(lines[1..], '\n') + ['\n'];
    }
  }

  lemma {:induction false} PrintedLines(lines: seq<string>)
    requires lines != [] && forall i :: 0 <= i < |lines| ==> OneLine(lines[i])
    ensures SplitLines(Printed(lines)) == lines
  {
    PrintedCons(lines);
    if |lines| == 1 {
      SplitFirst(lines[0], "");
      assert lines == [lines[0]];
    } else {
      PrintedLines(lines[1..]);
      SplitFirst(lines[0], Printed(lines[1..]));
    }
  }

  lemma AddPrinted(digest: string -> string, p: Parsed, name: string, content: string)
    requires HexDigests(digest) && Plain(name)
    ensures AddLine(p, Line(digest, name, content)) ==
              Parsed(p.entries[name := digest(content)], p.clean && name !in p.entries)
  {
    LineParses(digest, name, content);
  }

  lemma DigestsSnoc(digest: string -> string, files: map<string, string>, names: seq<string>, last: string)
    requires Ascending(names + [last]) && forall n :: n in names + [last] ==> n in files
    ensures (forall n :: n in names ==> n in files) && last in files && last !in names
    ensures Digests(digest, files, names + [last]) == Digests(digest, files, names)[last := digest(files[last])]
  {
    var all := names + [last];
    assert forall n :: n in all <==> n in names || n == last;
    if last in names {
      var i :| 0 <= i < |names| && names[i] == last;
      AscendingIsDistinct(all, i, |names|);
    }
  }

  lemma LinesSnoc(digest: string -> string, files: map<string, string>, names: seq<string>, last: string)
    requires forall n :: n in names + [last] ==> n in files
    ensures last in files && forall n :: n in names ==> n in files
    ensures Lines(digest, files, names + [last]) == Lines(digest, files, names) + [Line(digest, last, files[last])]
  {
    var all := names + [last];
    assert all[|names|] in all;
    forall n | n in names ensures n in files {
      assert n in all;
    }
  }

  lemma ParseThen(lines: seq<string>, last: string)
    ensures Parse(lines + [last]) == AddLine(Parse(lines), last)
  {
    assert (lines + [last])[..|lines|] == lines;
  }

  lemma ParsePrintedStep(digest: string -> string, files: map<string, string>, before: seq<string>, last: string)
    requires HexDigests(digest) && Plain(last) && Ascending(before + [last])
    requires (forall n :: n in before + [last] ==> n in files) && forall n :: n in before ==> n in files
    requires Parse(Lines(digest, files, before)) == Parsed(Digests(digest, files, before), true)
    ensures Parse(Lines(digest, files, before + [last])) == Parsed(Digests(digest, files, before + [last]), true)
  {
    DigestsSnoc(digest, files, before, last);
    LinesSnoc(digest, files, before, last);
    ParseThen(Lines(digest, files, before), Line(digest, last, files[last]));
    AddPrinted(digest, Parsed(Digests(digest, files, before), true), last, files[last]);
  }

  lemma {:induction false} ParsePrinted(digest: string -> string, files: map<string, string>, names: seq<string>)
    requires HexDigests(digest) && Ascending(names) && forall n :: n in names ==> n in files && Plain(n)
    ensures Parse(Lines(digest, files, names)) == Parsed(Digests(digest, files, names), true)
  {
    if names == [] {
      assert Lines(digest, files, names) == [];
    } else {
      var k := |names| - 1;
      assert names == names[..k] + [names[k]] && names[k] in names;
      ParsePrinted(digest, files, names[..k]);
      ParsePrintedStep(digest, files, names[..k], names[k]);
    }
  }

  /** Round trip: parsing the generated text gives back every name with its digest, without error. */
  lemma FileRoundTrip(digest: string -> string, files: map<string, string>, names: seq<string>)
    requires HexDigests(digest) && Ascending(names) && forall n :: n in names ==> n in files && Plain(n)
    ensures Parse(SplitLines(Printed(Lines(digest, files, names)))) == Parsed(Digests(digest, files, names), true)
  {
    ParsePrinted(digest, files, names);
    var lines := Lines(digest, files, names);
    if names == [] {
      assert Printed(lines) == ['\n'] == "" + ['\n'] + "";
      SplitFirst("", "");
      assert lines == [] && SplitLines("") == [];
      assert Parse([""]) == Parse([]) by {
        assert [""][..0] == [];
        assert PythonStrip("") == "";
      }
    } else {
      forall i | 0 <= i < |lines| ensures OneLine(lines[i]) {
        assert names[i] in names;
        LineParses(digest, names[i], files[names[i]]);
      }
      PrintedLines(lines);
    }
  }

  /** What acceptance means, whatever the digest: the same included names with equal digests, and no
      included link. */
  lemma AcceptsIffDigestsAgree(digest: string -> string, included: string -> bool, tree: Tree, names: seq<string>,
                               other: Tree)
    requires HexDigests(digest) && Ascending(names)
    requires (forall n :: n in names <==> n in Actual(included, tree)) && forall n :: n in names ==> Plain(n)
    ensures forall n :: n in names ==> n in tree.files
    ensures var mine, theirs := Actual(included, tree), Actual(included, other);
            Passes(digest, included, other, Printed(Lines(digest, tree.files, names))) <==>
            (mine.Keys == theirs.Keys &&
             (forall n :: n in mine && n in theirs ==> digest(mine[n]) == digest(theirs[n])) &&
             forall l :: l in other.links ==> !included(l))
  {
    assert forall n :: n in names ==> n in tree.files;
    FileRoundTrip(digest, tree.files, names);
    var entries := Digests(digest, tree.files, names);
    var mine := Actual(included, tree);
    assert entries.Keys == mine.Keys;
    assert forall n :: n in entries ==> entries[n] == digest(mine[n]);
  }

  /** The digest tells the contents of two trees apart, file by file. */
  ghost predicate TellsApart(digest: string -> string, a: map<string, string>, b: map<string, string>) {
    forall n :: n in a && n in b && digest(a[n]) == digest(b[n]) ==> a[n] == b[n]
  }

  /** Main result: when the tracked files are the included ones and have plain names, the generated
      file is accepted for exactly the trees with the same included files, the same contents and no
      included link, provided the digest does not confuse the contents compared. */
  lemma AcceptsExactlyTheSameTree(digest: string -> string, included: string -> bool, tree: Tree, names: seq<string>,
                                  other: Tree)
    requires HexDigests(digest) && TellsApart(digest, Actual(included, tree), Actual(included, other)) &&
             Ascending(names)
    requires (forall n :: n in names <==> n in Actual(included, tree)) && forall n :: n in names ==> Plain(n)
    ensures forall n :: n in names ==> n in tree.files
    ensures Passes(digest, included, other, Printed(Lines(digest, tree.files, names))) <==>
            (Actual(included, other) == Actual(included, tree) && forall l :: l in other.links ==> !included(l))
  {
    AcceptsIffDigestsAgree(digest, included, tree, names, other);
    var mine, theirs := Actual(included, tree), Actual(included, other);
    if mine.Keys == theirs.Keys && forall n :: n in mine && n in theirs ==> digest(mine[n]) == digest(theirs[n]) {
      SameMap(mine, theirs);
    }
  }

  lemma {:induction false} BeforeLineEnd(s: string)
    ensures OneLine(s[..LineEnd(s)])
  {
    if s != "" && !Break(s[0]) {
      BeforeLineEnd(s[1..]);
      assert s[..LineEnd(s)] == [s[0]] + s[1..][..LineEnd(s[1..])];
    }
  }

  lemma {:induction false} SplitLinesAreLines(s: string)
    ensures forall line :: line in SplitLines(s) ==> OneLine(line)
    decreases |s|
  {
    if s != "" {
      var n := LineEnd(s);
      BeforeLineEnd(s);
      if n == |s| {
        assert s[..n] == s;
      } else if s[n] == '\r' && n + 1 < |s| && s[n + 1] == '\n' {
        SplitLinesAreLines(s[n + 2..]);
      } else {
        SplitLinesAreLines(s[n + 1..]);
      }
    }
  }

  lemma {:induction false} ParsedNamesArePlain(lines: seq<string>)
    requires forall line :: line in lines ==> OneLine(line)
    ensures forall n :: n in Parse(lines).entries ==> Plain(n)
  {
    if lines != [] {
      var k := |lines| - 1;
      assert lines[k] in lines;
      ParsedNamesArePlain(lines[..k]);
      AddedNameIsPlain(Parse(lines[..k]), lines[k]);
    }
  }

  lemma AddedNameIsPlain(p: Parsed, line: string)
    requires OneLine(line) && forall n :: n in p.entries ==> Plain(n)
    ensures forall n :: n in AddLine(p, line).entries ==> Plain(n)
  {
    if |line| > 68 {
      assert OneLine(line[68..]);
    }
  }

  /** Exactly when the file can be read back: parsing the generated text gives every name with its
      digest, without error, if and only if all names are plain. */
  lemma ReadBackIffPlain(digest: string -> string, files: map<string, string>, names: seq<string>)
    requires HexDigests(digest) && Ascending(names) && forall n :: n in names ==> n in files
    ensures Parse(SplitLines(Printed(Lines(digest, files, names)))) == Parsed(Digests(digest, files, names), true) <==>
            forall n :: n in names ==> Plain(n)
  {
    if forall n :: n in names ==> Plain(n) {
      FileRoundTrip(digest, files, names);
    }
    var text := Printed(Lines(digest, files, names));
    SplitLinesAreLines(text);
    ParsedNamesArePlain(SplitLines(text));
    var p := Parse(SplitLines(text));
    if p == Parsed(Digests(digest, files, names), true) {
      forall n | n in names ensures Plain(n) {
        assert n in p.entries;
      }
    }
  }

  /** A tree passes the check against its own generated file if and only if all its names are plain
      and no included path is a link; no collision-freedom is needed for this. */
  lemma AcceptsItselfIffPlain(digest: string -> string, included: string -> bool, tree: Tree, names: seq<string>)
    requires HexDigests(digest) && Ascending(names) && forall n :: n in names <==> n in Actual(included, tree)
    ensures forall n :: n in names ==> n in tree.files
    ensures Passes(digest, included, tree, Printed(Lines(digest, tree.files, names))) <==>
            ((forall n :: n in names ==> Plain(n)) && forall l :: l in tree.links ==> !included(l))
  {
    assert forall n :: n in names ==> n in tree.files;
    var text := Printed(Lines(digest, tree.files, names));
    SplitLinesAreLines(text);
    ParsedNamesArePlain(SplitLines(text));
    var p, actual := Parse(SplitLines(text)), Actual(included, tree);
    if Passes(digest, included, tree, text) {
      forall n | n in names ensures Plain(n) {
        assert n in p.entries.Keys;
      }
    } else if forall n :: n in names ==> Plain(n) {
      FileRoundTrip(digest, tree.files, names);
      assert p.entries.Keys == actual.Keys;
    }
  }

  /** With plain names, a tree passes against its own generated file if and only if the names are
      exactly those of the included files, and no included path is a link. */
  lemma AcceptsItselfIffIncluded(digest: string -> string, included: string -> bool, tree: Tree, names: seq<string>)
    requires HexDigests(digest) && Ascending(names) && forall n :: n in names ==> n in tree.files && Plain(n)
    ensures Passes(digest, included, tree, Printed(Lines(digest, tree.files, names))) <==>
            ((forall n :: n in names <==> n in Actual(included, tree)) && forall l :: l in tree.links ==> !included(l))
  {
    FileRoundTrip(digest, tree.files, names);
    SameNames(digest, tree.files, names, Actual(included, tree));
  }

  /** Listed names and their digests against some of the files. */
  lemma SameNames(digest: string -> string, files: map<string, string>, names: seq<string>, actual: map<string, string>)
    requires (forall n :: n in names ==> n in files) && forall n :: n in actual ==> n in files && actual[n] == files[n]
    ensures Digests(digest, files, names).Keys == actual.Keys <==> forall n :: n in names <==> n in actual
    ensures forall n :: n in names && n in actual ==> digest(actual[n]) == Digests(digest, files, names)[n]
  {
    var entries := Digests(digest, files, names);
    assert forall n :: n in names <==> n in entries.Keys;
  }

  // ---------------------------------------------------------------- the paths of a release

  function IncludedPaths(ignoredFiles: set<string>, ignoredDirs: set<string>): string -> bool {
    path => Included(ignoredFiles, ignoredDirs, path)
  }

  /** The checksum file is never included, at the top or in any directory at any depth. */
  lemma ChecksumFilesAreExcluded(ignoredFiles: set<string>, ignoredDirs: set<string>, dir: string)
    ensures !Included(ignoredFiles, ignoredDirs, CHECKSUMS)
    ensures !Included(ignoredFiles, ignoredDirs, dir + ['/'] + CHECKSUMS)
  {
    assert '/' !in CHECKSUMS;
    SplitSolid(CHECKSUMS, '/');
    SplitSuffix(dir, CHECKSUMS, '/');
  }

  /** A release of plainly named regular files verifies in its own tree if and only if git tracks
      exactly the files that the verifier includes, and no included path is a link. */
  lemma ReleaseVerifies(digest: string -> string, ignoredFiles: set<string>, ignoredDirs: set<string>,
                        tree: Tree, tracked: set<string>, names: seq<string>)
    requires HexDigests(digest) && Ascending(names) && forall n :: n in names <==> n in tracked && n != CHECKSUMS
    requires forall n :: n in names ==> n in tree.files && Plain(n)
    ensures Passes(digest, IncludedPaths(ignoredFiles, ignoredDirs), tree,
                   Printed(Lines(digest, tree.files, names))) <==>
            ((forall n :: n in tree.files && n != CHECKSUMS ==>
              (n in tracked <==> Included(ignoredFiles, ignoredDirs, n))) &&
             forall l :: l in tree.links ==> !Included(ignoredFiles, ignoredDirs, l))
  {
    var included := IncludedPaths(ignoredFiles, ignoredDirs);
    ChecksumFilesAreExcluded(ignoredFiles, ignoredDirs, "");
    AcceptsItselfIffIncluded(digest, included, tree, names);
    forall n | n in tree.files && n != CHECKSUMS
      ensures (n in tracked <==> included(n)) <==> (n in names <==> n in Actual(included, tree))
    {}
  }

  /** So a tracked checksum file in a subdirectory, which the generator lists like any other file,
      makes every release fail its own verification. */
  lemma NestedChecksumFileFails(digest: string -> string, ignoredFiles: set<string>, ignoredDirs: set<string>,
                                tree: Tree, tracked: set<string>, names: seq<string>, dir: string)
    requires HexDigests(digest) && Ascending(names) && forall n :: n in names <==> n in tracked && n != CHECKSUMS
    requires forall n :: n in names ==> n in tree.files && Plain(n)
    requires dir + ['/'] + CHECKSUMS in tracked
    ensures !Passes(digest, IncludedPaths(ignoredFiles, ignoredDirs), tree, Printed(Lines(digest, tree.files, names)))
  {
    ChecksumFilesAreExcluded(ignoredFiles, ignoredDirs, dir);
    ReleaseVerifies(digest, ignoredFiles, ignoredDirs, tree, tracked, names);
    assert |dir + ['/'] + CHECKSUMS| > |CHECKSUMS|;
    assert dir + ['/'] + CHECKSUMS in names;
  }

  // ---------------------------------------------------------------- names with a line break

  /** Plain names are needed: of a name with a line break the second half is taken for a line of its
      own, which as a rule is no checksum line, so that the file is malformed. */
  lemma LineBreakBreaks(digest: string -> string, a: string, b: string, content: string)
    requires HexDigests(digest) && Plain(a) && |b| == 1 && !PythonSpace(b[0])
    ensures var files: map<string, string> := map[a + ['\n'] + b := content];
            !Parse(SplitLines(Printed(Lines(digest, files, [a + ['\n'] + b])))).clean
  {
    var first := Line(digest, a, content);
    LineParses(digest, a, content);
    PrintedName(digest, a, b, content);
    NotALine(AddLine(Parsed(map[], true), first), b);
    TwoLines(first, b);
    FoldTwo(AddLine, first, b);
  }

  /** If the second half happens to be a checksum line, the file is well-formed, but it tells of two
      other files instead of the one that was listed. */
  lemma LineBreakSplits(digest: string -> string, a: string, content: string, other: string, otherContent: string)
    requires HexDigests(digest) && Plain(a) && Plain(other) && a != other
    ensures var name := a + ['\n'] + Line(digest, other, otherContent);
            var files: map<string, string> := map[name := content];
            Parse(SplitLines(Printed(Lines(digest, files, [name])))) ==
              Parsed(map[a := digest(content), other := digest(otherContent)], true)
  {
    var first, second := Line(digest, a, content), Line(digest, other, otherContent);
    LineParses(digest, a, content);
    LineParses(digest, other, otherContent);
    PrintedName(digest, a, second, content);
    TwoLines(first, second);
    FoldTwo(AddLine, first, second);
    AddPrinted(digest, Parsed(map[], true), a, content);
    AddPrinted(digest, Parsed(map[a := digest(content)], true), other, otherContent);
  }

  lemma PrintedName(digest: string -> string, a: string, b: string, content: string)
    ensures var files: map<string, string> := map[a + ['\n'] + b := content];
            Printed(Lines(digest, files, [a + ['\n'] + b])) == Line(digest, a, content) + ['\n'] + (b + ['\n'] + "")
  {
    var name := a + ['\n'] + b;
    var files: map<string, string> := map[name := content];
    assert Line(digest, name, content) == Line(digest, a, content) + ['\n'] + b;
    assert Lines(digest, files, [name]) == [Line(digest, name, content)];
  }

  lemma TwoLines(a: string, b: string)
    requires OneLine(a) && OneLine(b)
    ensures SplitLines(a + ['\n'] + (b + ['\n'] + "")) == [a, b]
  {
    SplitFirst(a, b + ['\n'] + "");
    SplitFirst(b, "");
  }

  lemma FoldTwo(add: (Parsed, string) -> Parsed, a: string, b: string)
    ensures Fold(add, [a, b]) == add(add(Parsed(map[], true), a), b)
  {
    var two, one := [a, b], [a];
    assert two[..|two| - 1] == one && one[..|one| - 1] == [];
    assert Fold(add, one) == add(Fold(add, []), a);
    assert Fold(add, two) == add(Fold(add, one), b);
  }

  lemma NotALine(p: Parsed, line: string)
    requires |line| == 1 && !PythonSpace(line[0])
    ensures OneLine(line) && !AddLine(p, line).clean
  {
    TrimmedIsFixed(PythonSpace, line);
  }
}
