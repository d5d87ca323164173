/** Backup, restore and restore drill, with any external command failing, with or without effect. */
module DisasterRecovery {
  import opened Text

  const EXPECTED_LATEST := 42

  /** The first line of the manifest, which stands for all of it. */
  const MANIFEST_HEAD := "CPIM-MES PostgreSQL logical backup manifest\n"

  /** What external programs do: digests of files, the contents that an archive holds, and what is
      read from a database; without a ledger table its migration state cannot be read. */
  datatype Tools<!C> = Tools(
    digest: string -> string,
    archived: string -> Option<C>,
    migrationState: C -> Option<(int, int)>,
    ledger: C -> string,
    inventory: C -> string,
    rowCounts: C -> string)

  /** SHA-256 in lower-case hexadecimal. */
  ghost predicate HexDigests<C>(tools: Tools<C>) {
    forall s :: tools.digest(s) != "" && forall c :: c in tools.digest(s) ==> '0' <= c <= '9' || 'a' <= c <= 'f'
  }

  lemma HexDigestsExist<C>(tools: Tools<C>)
    ensures HexDigests(tools.(digest := s => seq(64, i => 'f')))
  {
    assert seq(64, i => 'f')[0] == 'f';
  }

  datatype Event = Dropped(db: string) | Created(db: string) | Restored(db: string)

  /** A command raised (its cleanup ran), or the process was killed on the spot. */
  datatype Outcome = Ok | Failed | Killed

  predicate ValidName(name: string) {
    1 <= |name| <= 63 && (Letter(name[0]) || name[0] == '_') &&
    forall i :: 0 <= i < |name| ==> Letter(name[i]) || '0' <= name[i] <= '9' || name[i] == '_'
  }

  predicate Letter(c: char) { 'a' <= c <= 'z' || 'A' <= c <= 'Z' }

  /** The database names, letter by letter: at most 63 characters, no digit in front. */
  lemma ValidNameIff(name: string)
    ensures ValidName(name) <==> exists first, rest :: NameOf(name, first, rest)
  {
    if ValidName(name) {
      assert name == [name[0]] + name[1..];
      assert NameOf(name, name[0], name[1..]);
    }
    if first, rest :| NameOf(name, first, rest) {
      assert forall i :: 0 < i < |name| ==> name[i] == rest[i - 1];
    }
  }

  ghost predicate NameOf(name: string, first: char, rest: string) {
    name == [first] + rest && |rest| <= 62 && IsLetter(first) &&
    forall i :: 0 <= i < |rest| ==> IsLetter(rest[i]) || IsDigit(rest[i])
  }

  predicate IsLetter(c: char) {
    c in {'a', 'b', 'c', 'd', 'e', 'f', 'g', 'h', 'i', 'j', 'k', 'l', 'm', 'n', 'o', 'p', 'q', 'r', 's', 't', 'u',
          'v', 'w', 'x', 'y', 'z', 'A', 'B', 'C', 'D', 'E', 'F', 'G', 'H', 'I', 'J', 'K', 'L', 'M', 'N', 'O', 'P',
          'Q', 'R', 'S', 'T', 'U', 'V', 'W', 'X', 'Y', 'Z', '_'}
  }

  predicate IsDigit(c: char) {
    c in {'0', '1', '2', '3', '4', '5', '6', '7', '8', '9'}
  }

  function SidecarOf(archive: string): string { archive + ".sha256" }

  function ManifestOf(archive: string): string { archive + ".manifest.txt" }

  /** The last component of a path. */
  function BaseName(path: string): string {
    var parts := Split(path, '/');
    parts[|parts| - 1]
  }

  lemma BaseNameIs(directory: string, name: string)
    requires '/' !in name
    ensures BaseName(directory + "/" + name) == name && BaseName(name) == name
  {
    SplitSuffix(directory, name, '/');
    SplitSolid(name, '/');
    assert directory + "/" + name == directory + ['/'] + name;
  }

  // ---------------------------------------------------------------- the sidecar

  function Lower(c: char): char { if 'A' <= c <= 'Z' then ((c as int) + 32) as char else c }

  function LowerAll(s: string): (r: string)
    ensures |r| == |s|
    ensures forall i :: 0 <= i < |s| ==> r[i] == Lower(s[i])
  {
    if s == "" then "" else [Lower(s[0])] + LowerAll(s[1..])
  }

  /** The first field of a text split at white space; empty when there is none. */
  function FirstField(text: string): string {
    UpToSpace(TrimLeft(PythonSpace, text))
  }

  function UpToSpace(s: string): string {
    if s == "" || PythonSpace(s[0]) then "" else [s[0]] + UpToSpace(s[1..])
  }

  /** The sidecar of an archive is absent, or names its digest. */
  predicate SidecarFits<C>(tools: Tools<C>, files: map<string, string>, archive: string)
    requires archive in files
  {
    SidecarOf(archive) in files ==>
      FirstField(files[SidecarOf(archive)]) != "" &&
      LowerAll(FirstField(files[SidecarOf(archive)])) == tools.digest(files[archive])
  }

  function SidecarText<C>(tools: Tools<C>, content: string, output: string): string {
    tools.digest(content) + "  " + BaseName(output) + "\n"
  }

  lemma {:induction false} FieldOfDigest(d: string, rest: string)
    requires forall c :: c in d ==> !PythonSpace(c)
    requires rest == "" || PythonSpace(rest[0])
    ensures UpToSpace(d + rest) == d
  {
    if d == "" {
      assert d + rest == rest;
    } else {
      assert d[0] in d;
      assert (d + rest)[1..] == d[1..] + rest;
      FieldOfDigest(d[1..], rest);
      assert d == [d[0]] + d[1..];
    }
  }

  lemma LowerOfHex(d: string)
    requires forall c :: c in d ==> '0' <= c <= '9' || 'a' <= c <= 'f'
    ensures LowerAll(d) == d
  {
    forall i | 0 <= i < |d| ensures LowerAll(d)[i] == d[i] {
      assert d[i] in d;
    }
  }

  /** The sidecar that a backup writes is accepted when the archive is restored. */
  lemma SidecarRoundTrip<C>(tools: Tools<C>, files: map<string, string>, archive: string)
    requires HexDigests(tools) && archive in files && SidecarOf(archive) in files
    requires files[SidecarOf(archive)] == SidecarText(tools, files[archive], archive)
    ensures SidecarFits(tools, files, archive)
  {
    var d := tools.digest(files[archive]);
    var rest := "  " + BaseName(archive) + "\n";
    assert SidecarText(tools, files[archive], archive) == d + rest;
    assert d[0] in d;
    assert TrimLeft(PythonSpace, d + rest) == d + rest;
    FieldOfDigest(d, rest);
    LowerOfHex(d);
  }

  /** Exactly when a sidecar that was cut short is still accepted: when the digest is all there. */
  lemma CutSidecarFits<C>(tools: Tools<C>, files: map<string, string>, archive: string, n: nat)
    requires HexDigests(tools) && archive in files && SidecarOf(archive) in files
    requires n <= |SidecarText(tools, files[archive], archive)|
    requires files[SidecarOf(archive)] == SidecarText(tools, files[archive], archive)[..n]
    ensures SidecarFits(tools, files, archive) <==> n >= |tools.digest(files[archive])|
  {
    var d, rest := tools.digest(files[archive]), "  " + BaseName(archive) + "\n";
    assert SidecarText(tools, files[archive], archive) == d + rest;
    forall c | c in d ensures !PythonSpace(c) {}
    FieldOfCut(d, rest, n);
    var field := FirstField(files[SidecarOf(archive)]);
    assert forall c :: c in field ==> c in d;
    LowerOfHex(field);
  }

  lemma FieldOfCut(d: string, rest: string, n: nat)
    requires d != "" && forall c :: c in d ==> !PythonSpace(c)
    requires rest != "" && PythonSpace(rest[0]) && n <= |d + rest|
    ensures FirstField((d + rest)[..n]) == if n < |d| then d[..n] else d
  {
    var kept, after := if n < |d| then d[..n] else d, if n < |d| then "" else rest[..n - |d|];
    assert (d + rest)[..n] == kept + after;
    assert d[0] in d;
    assert TrimLeft(PythonSpace, kept + after) == kept + after;
    FieldOfDigest(kept, after);
  }

  /** Exactly when an old sidecar is accepted beside a new archive: when the digests are equal. */
  lemma OldSidecarFits<C>(tools: Tools<C>, files: map<string, string>, archive: string, dump: string)
    requires archive in files && SidecarOf(archive) in files && SidecarFits(tools, files, archive)
    ensures SidecarFits(tools, files[archive := dump], archive) <==> tools.digest(dump) == tools.digest(files[archive])
  {
    assert |SidecarOf(archive)| == |archive| + 7;
  }

  /** When a sidecar is accepted, in its own terms: its first field is the digest, in letters of
      either case, with white space or nothing around it. */
  lemma SidecarFitsIff<C>(tools: Tools<C>, files: map<string, string>, archive: string)
    requires HexDigests(tools) && archive in files && archive + ".sha256" in files
    ensures SidecarFits(tools, files, archive) <==>
            exists blanks, field, rest ::
              FieldsOf(files[archive + ".sha256"], blanks, field, rest) && Spells(field, tools.digest(files[archive]))
  {
    FitsByField(files[archive + ".sha256"], tools.digest(files[archive]));
  }

  lemma FitsByField(text: string, d: string)
    requires d != "" && forall c :: c in d ==> '0' <= c <= '9' || 'a' <= c <= 'f'
    ensures FirstField(text) != "" && LowerAll(FirstField(text)) == d <==>
            exists blanks, field, rest :: FieldsOf(text, blanks, field, rest) && Spells(field, d)
  {
    var first := FirstField(text);
    var blanks, rest := FirstFieldParts(text);
    SpellsIff(first, d);
    if b, field, r :| FieldsOf(text, b, field, r) && Spells(field, d) {
      FirstFieldOf(b, field, r);
    }
  }

  lemma SpellsIff(field: string, d: string)
    requires forall c :: c in d ==> !('A' <= c <= 'Z')
    ensures Spells(field, d) <==> LowerAll(field) == d
  {
    if Spells(field, d) {
      forall i | 0 <= i < |d| ensures LowerAll(field)[i] == d[i] {
        assert d[i] in d;
      }
    }
    if LowerAll(field) == d {
      forall i | 0 <= i < |d| ensures d[i] == Lower(field[i]) {
        assert LowerAll(field)[i] == d[i];
      }
    }
  }

  /** White space, a field without any, and white space or the end. */
  ghost predicate FieldsOf(text: string, blanks: string, field: string, rest: string) {
    text == blanks + field + rest && AllOf(PythonSpace, blanks) &&
    (forall i :: 0 <= i < |field| ==> !PythonSpace(field[i])) && (rest == "" || PythonSpace(rest[0]))
  }

  /** The same letters, whatever their case. */
  ghost predicate Spells(field: string, d: string) {
    |field| == |d| &&
    forall i :: 0 <= i < |d| ==>
      field[i] == d[i] || ('A' <= field[i] <= 'Z' && field[i] as int + 32 == d[i] as int)
  }

  lemma FirstFieldParts(text: string) returns (blanks: string, rest: string)
    ensures FieldsOf(text, blanks, FirstField(text), rest)
  {
    blanks := TrimLeftParts(PythonSpace, text);
    rest := UpToSpaceParts(TrimLeft(PythonSpace, text));
    Regroup(blanks, FirstField(text), rest);
  }

  lemma {:induction false} UpToSpaceParts(s: string) returns (rest: string)
    ensures s == UpToSpace(s) + rest && (rest == "" || PythonSpace(rest[0]))
    ensures forall i :: 0 <= i < |UpToSpace(s)| ==> !PythonSpace(UpToSpace(s)[i])
  {
    if s == "" || PythonSpace(s[0]) {
      rest := s;
    } else {
      rest := UpToSpaceParts(s[1..]);
      HeadTail(s);
      Regroup([s[0]], UpToSpace(s[1..]), rest);
    }
  }

  lemma FirstFieldOf(blanks: string, field: string, rest: string)
    requires FieldsOf(blanks + field + rest, blanks, field, rest) && field != ""
    ensures FirstField(blanks + field + rest) == field
  {
    Regroup(blanks, field, rest);
    TrimLeftSkips(PythonSpace, blanks, field + rest);
    assert (field + rest)[0] == field[0];
    FieldOfDigest(field, rest);
  }

  // ---------------------------------------------------------------- the host

  /** A step that works or does not; over a reliable connection it does. */
  method Works(reliable: bool) returns (ok: bool)
    ensures reliable ==> ok
  {
    ok := *;
    ok := ok || reliable;
  }

  /** An external command: it works or raises, or the process is killed while it is under way. */
  method Command(reliable: bool) returns (outcome: Outcome)
    ensures reliable ==> outcome == Ok
  {
    var alive := Works(reliable);
    var worked := Works(reliable);
    outcome := if !alive then Killed else if worked then Ok else Failed;
  }

  /** Every drop replaced an existing target on request, as the first event, or cleaned up a
      database that was created earlier in the same call. */
  ghost predicate Justified(events: seq<Event>, target: string, replaced: bool, cleanup: bool) {
    forall i :: 0 <= i < |events| && events[i].Dropped? ==>
      events[i] == Dropped(target) && ((replaced && i == 0) || (cleanup && Created(target) in events[..i]))
  }

  lemma JustifiedThen(first: seq<Event>, more: seq<Event>, target: string, replaced: bool, cleanup: bool)
    requires Justified(first, target, replaced, false) && Created(target) in first
    requires forall i :: 0 <= i < |more| && more[i].Dropped? ==> more[i] == Dropped(target) && cleanup
    ensures Justified(first + more, target, replaced, cleanup)
  {
    var all := first + more;
    forall i | 0 <= i < |all| && all[i].Dropped?
      ensures all[i] == Dropped(target) && ((replaced && i == 0) || (cleanup && Created(target) in all[..i]))
    {
      if i >= |first| {
        assert all[i] == more[i - |first|];
        var k :| 0 <= k < |first| && first[k] == Created(target);
        assert all[..i][k] == Created(target);
      }
    }
  }

  lemma AppendedTwice<T>(before: seq<T>, first: seq<T>, now: seq<T>)
    requires before + first <= now
    ensures now[|before|..] == first + now[|before + first|..]
  {
    assert now == before + first + now[|before + first|..];
  }

  class Host<C> {
    const source: string
    const tools: Tools<C>
    var dbs: map<string, C>
    var files: map<string, string>
    ghost var log: seq<Event>

    constructor (source: string, tools: Tools<C>, dbs: map<string, C>, files: map<string, string>)
      ensures this.source == source && this.tools == tools && this.dbs == dbs && this.files == files && log == []
    {
      this.source, this.tools, this.dbs, this.files, this.log := source, tools, dbs, files, [];
    }

    /** `dropdb --if-exists`: refused for the source database before anything is sent. */
    method DropDatabase(name: string, reliable: bool) returns (outcome: Outcome)
      modifies this`dbs, this`log
      ensures name == source || !ValidName(name) ==> outcome == Failed && dbs == old(dbs) && log == old(log)
      ensures (dbs == old(dbs) && log == old(log)) ||
              (name != source && dbs == old(dbs) - {name} && log == old(log) + [Dropped(name)])
      ensures outcome == Ok ==> name !in dbs
      ensures reliable ==> (outcome == Ok <==> ValidName(name) && name != source)
      ensures reliable ==> outcome != Killed
    {
      if !ValidName(name) || name == source {
        return Failed;
      }
      var effect := Works(reliable);
      outcome := Command(reliable);
      if effect || outcome == Ok {
        dbs := dbs - {name};
        log := log + [Dropped(name)];
      }
    }

    /** `createdb`, which fails on an existing name. */
    method CreateDatabase(name: string, empty: C, reliable: bool) returns (outcome: Outcome)
      modifies this`dbs, this`log
      ensures (dbs == old(dbs) && log == old(log)) ||
              (name !in old(dbs) && dbs == old(dbs)[name := empty] && log == old(log) + [Created(name)])
      ensures outcome == Ok ==> name !in old(dbs) && dbs == old(dbs)[name := empty] && log == old(log) + [Created(name)]
      ensures reliable ==> (outcome == Ok <==> ValidName(name) && name !in old(dbs))
      ensures reliable ==> outcome != Killed
    {
      if !ValidName(name) || name in dbs {
        return Failed;
      }
      var effect := Works(reliable);
      outcome := Command(reliable);
      if effect || outcome == Ok {
        dbs := dbs[name := empty];
        log := log + [Created(name)];
      }
    }

    /** `pg_restore` into a database: a success leaves what the archive holds, a failure anything. */
    method RestoreInto(name: string, archive: string, partial: C, reliable: bool) returns (outcome: Outcome)
      requires name in dbs && archive in files
      modifies this`dbs, this`log
      ensures log == old(log) + [Restored(name)]
      ensures dbs.Keys == old(dbs.Keys) && forall d :: d in dbs && d != name ==> dbs[d] == old(dbs)[d]
      ensures outcome == Ok ==> tools.archived(files[archive]) == Some(dbs[name])
      ensures reliable ==> outcome == if tools.archived(files[archive]).Some? then Ok else Failed
    {
      log := log + [Restored(name)];
      var held := tools.archived(files[archive]);
      outcome := Command(reliable);
      if outcome == Ok && held.None? {
        outcome := Failed;
      }
      dbs := dbs[name := if outcome == Ok then held.value else partial];
    }

    method VerifySidecar(archive: string, reliable: bool) returns (outcome: Outcome)
      requires archive in files
      ensures outcome == Ok ==> SidecarFits(tools, files, archive)
      ensures !SidecarFits(tools, files, archive) && outcome != Killed ==> outcome == Failed
      ensures reliable ==> (outcome == Ok <==> SidecarFits(tools, files, archive))
      ensures reliable ==> outcome != Killed
    {
      outcome := Command(reliable);
      if outcome != Ok {
        return;
      }
      var sidecar := SidecarOf(archive);
      if sidecar !in files {
        return Ok;
      }
      var field := FirstField(files[sidecar]);
      outcome := if field == "" || LowerAll(field) != tools.digest(files[archive]) then Failed else Ok;
    }

    /** Nothing happened to any database but `name`, and the events of this call are about it. */
    twostate predicate OnlyTouches(name: string)
      reads this
    {
      old(log) <= log &&
      (forall i :: |old(log)| <= i < |log| ==> log[i].db == name) &&
      (forall d :: d != name ==> (d in dbs <==> d in old(dbs))) &&
      (forall d :: d != name && d in dbs ==> dbs[d] == old(dbs)[d])
    }

    twostate predicate Untouched()
      reads this
    {
      log == old(log) && dbs == old(dbs)
    }

    // -------------------------------------------------------------- backup

    /** `write_text`: a failure or a kill may leave the file as it was or cut short. */
    method WriteText(path: string, text: string, reliable: bool) returns (outcome: Outcome)
      modifies this`files
      ensures outcome == Ok ==> files == old(files)[path := text]
      ensures reliable ==> outcome == Ok
      ensures outcome != Ok ==>
                files == old(files) || exists n :: 0 <= n <= |text| && files == old(files)[path := text[..n]]
      ensures forall f :: f != path ==> (f in files <==> f in old(files)) && (f in files ==> files[f] == old(files)[f])
    {
      var opened_ := Works(reliable);
      outcome := Command(reliable);
      if outcome == Ok {
        files := files[path := text];
      } else if opened_ {
        assert 0 <= |text|;
        var n: nat :| n <= |text|;
        files := files[path := text[..n]];
      }
    }

    /** `create_backup` on a resolved path. `tmp` is the temporary file beside it; `dump` is what
        pg_dump writes there, and `dumped` whether it exits with zero, which it promises to do only
        after writing a complete archive of the source database. */
    method CreateBackup(output: string, tmp: string, dump: string, dumped: bool, reliable: bool)
        returns (outcome: Outcome)
      requires dumped ==> source in dbs && tools.archived(dump) == Some(dbs[source])
      requires HexDigests(tools)
      modifies this`files
      ensures HoldsOldOrComplete(output) && SidecarLeft(output)
      ensures outcome == Ok ==>
                dumped && dump != "" &&
                files == old(files)[output := dump]
                  [output + ".sha256" := tools.digest(dump) + "  " + BaseName(output) + "\n"]
                  [output + ".manifest.txt" := MANIFEST_HEAD]
      ensures outcome == Ok ==> output in files && SidecarFits(tools, files, output)
      ensures reliable ==>
                (outcome == Ok <==> Ready() && tmp !in old(files) && tmp !in Products(output) && dumped && dump != "")
      ensures reliable ==> outcome != Killed
      ensures outcome != Killed ==> tmp in files ==> tmp in old(files) || tmp in Products(output)
      ensures forall f :: f !in Products(output) && f != tmp ==>
                (f in files <==> f in old(files)) && (f in files ==> files[f] == old(files)[f])
    {
      var ready := Works(reliable);
      if !ready || !ValidName(source) || source !in dbs || tools.migrationState(dbs[source]).None? {
        return Failed;
      }
      if tmp in files || tmp in Products(output) {
        return Failed;
      }
      outcome := DumpTo(output, tmp, dump, dumped, reliable);
      if outcome != Ok {
        return;
      }
      SuffixesDiffer(output);
      ghost var text := SidecarText(tools, files[output], output);
      outcome := WriteText(SidecarOf(output), SidecarText(tools, files[output], output), reliable);
      if outcome != Ok {
        return;
      }
      assert text[..|text|] == text;
      SidecarRoundTrip(tools, files, output);
      ghost var sidecarWritten := files;
      outcome := WriteText(ManifestOf(output), MANIFEST_HEAD, reliable);
      assert outcome == Ok ==> SidecarFits(tools, files, output) by {
        assert files[output] == sidecarWritten[output];
      }
    }

    /** The source database has a valid name, is there, and its ledger can be read. */
    predicate Ready()
      reads this`dbs
    {
      ValidName(source) && source in dbs && tools.migrationState(dbs[source]).Some?
    }

    /** The guarded part: write the temporary file, look at it, and put it in place in one step.
        A raise removes the temporary file, a kill does not. */
    method DumpTo(output: string, tmp: string, dump: string, dumped: bool, reliable: bool) returns (outcome: Outcome)
      requires tmp !in files && tmp !in Products(output)
      modifies this`files
      ensures outcome == Ok ==> dumped && files == old(files)[output := dump]
      ensures outcome == Failed ==> files == old(files)
      ensures outcome == Killed ==> files == old(files)[output := dump] || files == old(files)[tmp := dump]
      ensures files != old(files) && outcome == Killed && output in files &&
              !(output in old(files) && files[output] == old(files)[output]) ==>
                dumped && files[output] == dump && dump != ""
      ensures outcome == Ok ==> dump != ""
      ensures reliable ==> (outcome == Ok <==> dumped && dump != "")
      ensures reliable ==> outcome != Killed
    {
      ghost var before := files;
      files := files[tmp := dump];
      assert files == before[tmp := dump];
      var alive := Works(reliable);
      if !alive {
        return Killed;
      }
      if !dumped || dump == "" {
        files := files - {tmp};
        assert files == before;
        return Failed;
      }
      var replaced := Works(reliable);
      if !replaced {
        files := files - {tmp};
        assert files == before;
        return Failed;
      }
      files := (files - {tmp})[output := dump];
      assert files == before[output := dump];
      alive := Works(reliable);
      outcome := if alive then Ok else Killed;
    }

    /** The three files a backup writes. */
    function Products(output: string): set<string> {
      {output, SidecarOf(output), ManifestOf(output)}
    }

    lemma SuffixesDiffer(output: string)
      ensures output != SidecarOf(output) && output != ManifestOf(output) && SidecarOf(output) != ManifestOf(output)
    {
      assert |SidecarOf(output)| == |output| + 7 && |ManifestOf(output)| == |output| + 13;
    }

    /** The path holds what it held, or a complete archive of the source database. */
    twostate predicate HoldsOldOrComplete(output: string)
      reads this
    {
      (output in old(files) ==> output in files) &&
      (output in files ==>
        (output in old(files) && files[output] == old(files)[output]) ||
        (files[output] != "" && source in dbs && tools.archived(files[output]) == Some(dbs[source])))
    }

    /** The sidecar is what it was, or as much of the right one for the archive as was written. */
    twostate predicate SidecarLeft(output: string)
      reads this
    {
      var sidecar := SidecarOf(output);
      ((sidecar in files <==> sidecar in old(files)) && (sidecar in files ==> files[sidecar] == old(files)[sidecar])) ||
      (output in files && sidecar in files && CutFrom(SidecarText(tools, files[output], output), files[sidecar]))
    }

    ghost predicate CutFrom(text: string, kept: string) {
      exists n :: 0 <= n <= |text| && kept == text[..n]
    }

    // -------------------------------------------------------------- restore

    /** The events of this call, in which every drop is justified. */
    twostate predicate DropsAreJustified(target: string, replaced: bool, cleanup: bool)
      reads this
    {
      old(log) <= log && Justified(log[|old(log)|..], target, replaced, cleanup)
    }

    /** Everything that is looked at before any database is changed. */
    method Admits(archive: string, target: string, replaceTarget: bool, reliable: bool) returns (outcome: Outcome)
      ensures outcome == Ok ==> archive in files && files[archive] != "" && SidecarFits(tools, files, archive)
      ensures outcome == Ok ==> ValidName(target) && target != source && (target in dbs ==> replaceTarget)
      ensures reliable ==>
                (outcome == Ok <==> archive in files && files[archive] != "" && SidecarFits(tools, files, archive) &&
                                    ValidName(source) && ValidName(target) && target != source &&
                                    (target in dbs ==> replaceTarget))
      ensures reliable ==> outcome != Killed
    {
      if archive !in files || files[archive] == "" {
        return Failed;
      }
      outcome := VerifySidecar(archive, reliable);
      if outcome != Ok {
        return;
      }
      if !ValidName(target) || !ValidName(source) || target == source {
        return Failed;
      }
      outcome := Command(reliable);
      if outcome != Ok {
        return;
      }
      outcome := Command(reliable);
      if outcome == Ok && target in dbs && !replaceTarget {
        outcome := Failed;
      }
    }

    /** `restore_backup`, which may raise or be killed at every command. */
    method RestoreBackup(archive: string, target: string, replaceTarget: bool, cleanupOnFailure: bool, empty: C,
                         partial: C, reliable: bool)
        returns (outcome: Outcome)
      modifies this`dbs, this`log
      ensures OnlyTouches(target)
      ensures target == source ==> Untouched()
      ensures archive !in files || files[archive] == "" || !SidecarFits(tools, files, archive) ==>
                outcome != Ok && Untouched()
      ensures target in old(dbs) && !replaceTarget ==> outcome != Ok && Untouched()
      ensures DropsAreJustified(target, replaceTarget && target in old(dbs), cleanupOnFailure)
      ensures outcome == Ok ==> target in dbs && archive in files && tools.archived(files[archive]) == Some(dbs[target])
      ensures reliable ==>
                (outcome == Ok <==> archive in files && files[archive] != "" && SidecarFits(tools, files, archive) &&
                                    ValidName(source) && ValidName(target) && target != source &&
                                    (target in old(dbs) ==> replaceTarget) && Restorable(archive))
      ensures reliable && cleanupOnFailure && outcome != Ok ==> Untouched() || target !in dbs
      ensures reliable ==> outcome != Killed
    {
      outcome := Admits(archive, target, replaceTarget, reliable);
      if outcome != Ok {
        return;
      }
      ghost var before := log;
      outcome := Recreate(target, empty, reliable);
      ghost var recreated := log[|before|..];
      if outcome != Ok {
        return;
      }
      assert log == before + recreated;
      outcome := FillOrCleanUp(archive, target, cleanupOnFailure, partial, reliable);
      ghost var more := log[|before + recreated|..];
      JustifiedThen(recreated, more, target, replaceTarget && target in old(dbs), cleanupOnFailure);
      AppendedTwice(before, recreated, log);
    }

    /** The archive holds a database, with a migration ledger. */
    predicate Restorable(archive: string)
      requires archive in files
      reads this`files
    {
      var held := tools.archived(files[archive]);
      held.Some? && tools.migrationState(held.value).Some?
    }

    /** Drop the target if it exists, and create it. */
    method Recreate(target: string, empty: C, reliable: bool) returns (outcome: Outcome)
      modifies this`dbs, this`log
      ensures OnlyTouches(target)
      ensures Justified(log[|old(log)|..], target, target in old(dbs), false)
      ensures outcome == Ok ==> target in dbs && Created(target) in log[|old(log)|..]
      ensures reliable && ValidName(target) && target != source ==> outcome == Ok
      ensures reliable ==> outcome != Killed
    {
      if target in dbs {
        outcome := DropDatabase(target, reliable);
        if outcome != Ok {
          return;
        }
      }
      outcome := CreateDatabase(target, empty, reliable);
      if outcome == Ok {
        assert log[|old(log)|..][|log| - 1 - |old(log)|] == Created(target);
      }
    }

    /** Fill the new database; when that raises and cleanup is wanted, drop it again. After a kill
        nothing is cleaned up. */
    method FillOrCleanUp(archive: string, target: string, cleanup: bool, partial: C, reliable: bool)
        returns (outcome: Outcome)
      requires target in dbs && archive in files
      modifies this`dbs, this`log
      ensures OnlyTouches(target)
      ensures forall i :: |old(log)| <= i < |log| && log[i].Dropped? ==> log[i] == Dropped(target) && cleanup
      ensures outcome == Ok ==> target in dbs && tools.archived(files[archive]) == Some(dbs[target])
      ensures reliable ==> (outcome == Ok <==> Restorable(archive))
      ensures reliable ==> outcome != Killed
      ensures reliable && ValidName(target) && target != source && cleanup && outcome != Ok ==> target !in dbs
    {
      outcome := Fill(archive, target, partial, reliable);
      if outcome == Failed && cleanup {
        var dropped := DropDatabase(target, reliable);
        if dropped == Killed {
          outcome := Killed;
        }
      }
    }

    /** Copy, list, restore, and read the migration ledger back. */
    method Fill(archive: string, target: string, partial: C, reliable: bool) returns (outcome: Outcome)
      requires target in dbs && archive in files
      modifies this`dbs, this`log
      ensures log == old(log) || log == old(log) + [Restored(target)]
      ensures dbs.Keys == old(dbs.Keys) && forall d :: d in dbs && d != target ==> dbs[d] == old(dbs)[d]
      ensures outcome == Ok ==> tools.archived(files[archive]) == Some(dbs[target])
      ensures reliable ==> outcome == if Restorable(archive) then Ok else Failed
    {
      outcome := Command(reliable);
      if outcome != Ok {
        return;
      }
      outcome := Command(reliable);
      if outcome != Ok {
        return;
      }
      outcome := RestoreInto(target, archive, partial, reliable);
      if outcome != Ok {
        return;
      }
      outcome := Command(reliable);
      if outcome == Ok && tools.migrationState(dbs[target]).None? {
        outcome := Failed;
      }
    }

    // -------------------------------------------------------------- drill

    /** What a pass of the drill says of two databases. */
    predicate SameReadings(a: C, b: C) {
      tools.migrationState(a) == tools.migrationState(b) == Some((42, 42)) &&
      tools.ledger(a) == tools.ledger(b) && tools.inventory(a) == tools.inventory(b) &&
      tools.rowCounts(a) == tools.rowCounts(b)
    }

    /** The archive holds a database with the source's readings. */
    predicate HoldsLikeSource(archive: string)
      requires archive in files
      reads this`files, this`dbs
    {
      var held := tools.archived(files[archive]);
      held.Some? && source in dbs && SameReadings(held.value, dbs[source])
    }

    /** Restore into the drill's own database, compare, and drop that database again. A pass tells
        that the archive holds a database with the source's migration ledger, at the expected level,
        and with its objects and row counts. */
    method RunDrill(archive: string, target: string, empty: C, partial: C, reliable: bool) returns (outcome: Outcome)
      modifies this`dbs, this`log
      ensures OnlyTouches(target)
      ensures target == source ==> Untouched() && outcome != Ok
      ensures outcome == Ok ==> archive in files && HoldsLikeSource(archive)
      ensures reliable ==>
                (outcome == Ok <==> archive in files && files[archive] != "" && SidecarFits(tools, files, archive) &&
                                    ValidName(source) && ValidName(target) && target != source &&
                                    HoldsLikeSource(archive))
      ensures reliable && ValidName(source) && ValidName(target) && target != source ==> target !in dbs
      ensures reliable ==> outcome != Killed
    {
      if !ValidName(source) || !ValidName(target) {
        return Failed;
      }
      outcome := Command(reliable);
      if outcome != Ok {
        return;
      }
      if target in dbs {
        outcome := DropDatabase(target, reliable);
        if outcome != Ok {
          return;
        }
      }
      outcome := RestoreAndCompare(archive, target, empty, partial, reliable);
      // An interrupted process still takes this last step, a killed one does not.
      var unwinds := Works(reliable);
      if outcome != Killed || unwinds {
        var dropped := DropDatabase(target, reliable);
        if dropped == Killed {
          outcome := Killed;
        }
      }
    }

    /** The guarded part of the drill. */
    method RestoreAndCompare(archive: string, target: string, empty: C, partial: C, reliable: bool)
        returns (outcome: Outcome)
      modifies this`dbs, this`log
      ensures OnlyTouches(target)
      ensures target == source ==> Untouched() && outcome != Ok
      ensures outcome == Ok ==> archive in files && HoldsLikeSource(archive)
      ensures reliable && ValidName(source) && ValidName(target) && target !in old(dbs) ==>
                (outcome == Ok <==> archive in files && files[archive] != "" && SidecarFits(tools, files, archive) &&
                                    target != source && HoldsLikeSource(archive))
      ensures reliable ==> outcome != Killed
    {
      if source !in dbs || tools.migrationState(dbs[source]).None? {
        return Failed;
      }
      ghost var here := dbs[source];
      var sourceState, sourceLedger := tools.migrationState(dbs[source]), tools.ledger(dbs[source]);
      var sourceCounts, sourceInventory := tools.rowCounts(dbs[source]), tools.inventory(dbs[source]);
      outcome := RestoreBackup(archive, target, false, true, empty, partial, reliable);
      if outcome != Ok {
        return;
      }
      assert dbs[source] == here;
      outcome := Command(reliable);
      if outcome != Ok {
        return;
      }
      var state := tools.migrationState(dbs[target]);
      if state != sourceState {
        return Failed;
      }
      if state != Some((EXPECTED_LATEST, EXPECTED_LATEST)) {
        return Failed;
      }
      if tools.ledger(dbs[target]) != sourceLedger {
        return Failed;
      }
      if tools.inventory(dbs[target]) != sourceInventory {
        return Failed;
      }
      if tools.rowCounts(dbs[target]) != sourceCounts {
        return Failed;
      }
    }

    // -------------------------------------------------------------- any sequence of invocations

    /** The source database holds what it held, and no event is about it. */
    twostate predicate SourceSafe()
      reads this
    {
      (source in dbs <==> source in old(dbs)) && (source in dbs ==> dbs[source] == old(dbs)[source]) &&
      old(log) <= log && forall i :: |old(log)| <= i < |log| ==> log[i].db != source
    }

    /** Any sequence of invocations, each of which may fail or be killed anywhere. */
    method Session(invocations: seq<Invocation<C>>)
      requires HexDigests(tools)
      requires forall c :: c in invocations && c.Backup? && c.dumped ==>
                 source in dbs && tools.archived(c.dump) == Some(dbs[source])
      modifies this
      ensures SourceSafe()
    {
      for i := 0 to |invocations|
        invariant SourceSafe()
      {
        assert invocations[i] in invocations;
        var reliable: bool := *;
        match invocations[i] {
          case Backup(output, tmp, dump, dumped) =>
            var o := CreateBackup(output, tmp, dump, dumped, reliable);
          case Restore(archive, target, replaceTarget, cleanup, empty, partial) =>
            var o := RestoreBackup(archive, target, replaceTarget, cleanup, empty, partial, reliable);
          case Drill(archive, target, empty, partial) =>
            var o := RunDrill(archive, target, empty, partial, reliable);
        }
      }
    }
  }

  datatype Invocation<C> =
    | Backup(output: string, tmp: string, dump: string, dumped: bool)
    | Restore(archive: string, target: string, replaceTarget: bool, cleanup: bool, empty: C, partial: C)
    | Drill(archive: string, target: string, empty: C, partial: C)
}
