/** Reading the embedded migration files: names, duplicates, order and gaps. */
module MigrationLoader {
  import opened Text
  import opened Collections
  import opened MigrationModel

  datatype File = File(name: string, isDir: bool, body: string)

  predicate Digit(c: char) { '0' <= c <= '9' }

  predicate Word(c: char) { 'a' <= c <= 'z' || 'A' <= c <= 'Z' || Digit(c) }

  predicate EndsWith(s: string, suffix: string) {
    |suffix| <= |s| && s[|s| - |suffix|..] == suffix
  }

  /** NNNN_name.sql, as version and name. */
  function ParseName(f: string): Option<(int, string)> {
    if |f| < 10 || !EndsWith(f, ".sql") || f[4] != '_' || !(forall i :: 0 <= i < 4 ==> Digit(f[i])) then None
    else
      var name := f[5..|f| - 4];
      if Word(name[0]) && forall i :: 0 <= i < |name| ==> Word(name[i]) || name[i] == '_' || name[i] == '-'
      then Some((1000 * Value(f[0]) + 100 * Value(f[1]) + 10 * Value(f[2]) + Value(f[3]), name))
      else None
  }

  function Value(c: char): int { c as int - '0' as int }

  /** What one directory entry contributes. */
  datatype Entry = Ignored | BadName | Embeds(migration: Migration)

  function Reader(digest: string -> Digest): File -> Entry {
    (f: File) =>
      if f.isDir || !EndsWith(f.name, ".sql") then Ignored
      else
        match ParseName(f.name)
        case None => BadName
        case Some((v, name)) => Embeds(Migration(v, name, f.body, digest(f.body)))
  }

  /** The file name for a version, in four digits, and a name. */
  ghost predicate NamesFile(file: string, version: int, name: string) {
    0 <= version < 10000 && file == FourDigits(version) + "_" + name + ".sql" &&
    name != "" && name[0] != '_' && name[0] != '-' &&
    forall i :: 0 <= i < |name| ==>
      'a' <= name[i] <= 'z' || 'A' <= name[i] <= 'Z' || '0' <= name[i] <= '9' || name[i] == '_' || name[i] == '-'
  }

  ghost function FourDigits(v: int): string
    requires 0 <= v < 10000
  {
    ['0' + (v / 1000) as char, '0' + (v / 100 % 10) as char, '0' + (v / 10 % 10) as char, '0' + (v % 10) as char]
  }

  lemma FourDigitsOf(a: int, b: int, c: int, d: int)
    requires 0 <= a < 10 && 0 <= b < 10 && 0 <= c < 10 && 0 <= d < 10
    ensures var v := 1000 * a + 100 * b + 10 * c + d;
            FourDigits(v) == ['0' + a as char, '0' + b as char, '0' + c as char, '0' + d as char]
  {
    var v := 1000 * a + 100 * b + 10 * c + d;
    assert v / 1000 == a && v / 100 == 10 * a + b && v / 10 == 100 * a + 10 * b + c;
  }

  /** What a directory entry gives: a migration exactly for a file whose name has a version and a
      name; it holds the file's text and the digest of that text. */
  lemma EmbedsIff(digest: string -> Digest, f: File, mig: Migration)
    ensures Reader(digest)(f) == Embeds(mig) <==>
            !f.isDir && NamesFile(f.name, mig.version, mig.name) && mig.sql == f.body && mig.checksum == digest(f.body)
  {
    if ParseName(f.name).Some? {
      ParsedName(f.name);
    }
    if NamesFile(f.name, mig.version, mig.name) {
      NameIsParsed(f.name, mig.version, mig.name);
    }
  }

  /** A bad name is that of a file ending in .sql which no version and name give. */
  lemma BadNameIff(digest: string -> Digest, f: File)
    ensures Reader(digest)(f) == BadName <==>
            !f.isDir && (exists stem :: f.name == stem + ".sql") &&
            !exists version, name :: NamesFile(f.name, version, name)
  {
    if EndsWith(f.name, ".sql") {
      assert f.name == f.name[..|f.name| - 4] + ".sql";
    }
    if ParseName(f.name).Some? {
      ParsedName(f.name);
    }
    if version, name :| NamesFile(f.name, version, name) {
      NameIsParsed(f.name, version, name);
    }
  }

  lemma ParsedName(f: string)
    requires ParseName(f).Some?
    ensures EndsWith(f, ".sql") && NamesFile(f, ParseName(f).value.0, ParseName(f).value.1)
  {
    var a, b, c, d := Value(f[0]), Value(f[1]), Value(f[2]), Value(f[3]);
    var name := f[5..|f| - 4];
    FourDigitsOf(a, b, c, d);
    assert f == f[..4] + f[4..5] + name + f[|f| - 4..];
    assert f[..4] == FourDigits(1000 * a + 100 * b + 10 * c + d) && f[4..5] == "_";
  }

  lemma DigitsAreRead(v: int, s: string)
    requires 0 <= v < 10000 && s == FourDigits(v)
    ensures forall i :: 0 <= i < 4 ==> Digit(s[i])
    ensures 1000 * Value(s[0]) + 100 * Value(s[1]) + 10 * Value(s[2]) + Value(s[3]) == v
  {
    assert Value(s[0]) == v / 1000 && Value(s[1]) == v / 100 % 10;
    assert Value(s[2]) == v / 10 % 10 && Value(s[3]) == v % 10;
    assert v / 10 == 10 * (v / 100) + v / 10 % 10 && v / 100 == 10 * (v / 1000) + v / 100 % 10;
  }

  lemma NameIsParsed(f: string, version: int, name: string)
    requires NamesFile(f, version, name)
    ensures EndsWith(f, ".sql") && ParseName(f) == Some((version, name))
  {
    var digits := FourDigits(version);
    DigitsAreRead(version, digits);
    NameParts(f, digits, name);
  }

  lemma NameParts(f: string, digits: string, name: string)
    requires |digits| == 4 && f == digits + "_" + name + ".sql"
    ensures |f| == 9 + |name| && f[4] == '_' && f[5..|f| - 4] == name && f[|f| - 4..] == ".sql"
    ensures forall i :: 0 <= i < 4 ==> f[i] == digits[i]
  {}

  /** The migration is that of some file among the first n. */
  ghost predicate From(read: File -> Entry, files: seq<File>, n: nat, mig: Migration)
    requires n <= |files|
  {
    exists i :: 0 <= i < n && read(files[i]) == Embeds(mig)
  }

  /** The migrations are exactly those of the first n files, none of which has a bad name. */
  ghost predicate Covers(read: File -> Entry, files: seq<File>, n: nat, migs: seq<Migration>)
    requires n <= |files|
  {
    (forall mig :: mig in migs ==> From(read, files, n, mig)) &&
    (forall i :: 0 <= i < n ==> !read(files[i]).BadName?) &&
    (forall i :: 0 <= i < n && read(files[i]).Embeds? ==> read(files[i]).migration in migs)
  }

  lemma CoversMore(read: File -> Entry, files: seq<File>, n: nat, migs: seq<Migration>, longer: seq<Migration>)
    requires n < |files| && Covers(read, files, n, migs) && !read(files[n]).BadName?
    requires longer == if read(files[n]).Embeds? then migs + [read(files[n]).migration] else migs
    ensures Covers(read, files, n + 1, longer)
  {
    forall mig | mig in longer ensures From(read, files, n + 1, mig) {
      if mig in migs {
        assert From(read, files, n, mig);
      }
    }
  }

  ghost predicate Increasing(migs: seq<Migration>) {
    forall i, j :: 0 <= i < j < |migs| ==> migs[i].version < migs[j].version
  }

  /** The first position whose version is not below v. */
  function Position(migs: seq<Migration>, v: int): (n: nat)
    ensures n <= |migs|
    ensures forall i :: 0 <= i < n ==> migs[i].version < v
    ensures n < |migs| ==> migs[n].version >= v
  {
    if migs != [] && migs[0].version < v then 1 + Position(migs[1..], v) else 0
  }

  /** Ordering by version; no two versions are equal. */
  method SortByVersion(migs: seq<Migration>) returns (sorted: seq<Migration>)
    requires forall i, j :: 0 <= i < j < |migs| ==> migs[i].version != migs[j].version
    ensures Increasing(sorted) && |sorted| == |migs| && forall m :: m in sorted <==> m in migs
  {
    sorted := [];
    for i := 0 to |migs|
      invariant Increasing(sorted) && |sorted| == i
      invariant forall m :: m in sorted <==> m in migs[..i]
    {
      var n := Position(sorted, migs[i].version);
      InsertKeeps(sorted, migs[..i], migs[i], n);
      assert migs[..i + 1] == migs[..i] + [migs[i]];
      sorted := sorted[..n] + [migs[i]] + sorted[n..];
    }
    assert migs[..|migs|] == migs;
  }

  lemma InsertKeeps(sorted: seq<Migration>, seen: seq<Migration>, mig: Migration, n: nat)
    requires Increasing(sorted) && n == Position(sorted, mig.version)
    requires (forall m :: m in sorted <==> m in seen) && forall i :: 0 <= i < |seen| ==> seen[i].version != mig.version
    ensures var t := sorted[..n] + [mig] + sorted[n..]; Increasing(t) && forall m :: m in t <==> m in seen + [mig]
  {
    forall i | n <= i < |sorted| ensures sorted[i].version > mig.version {
      if i > n {
        assert sorted[n].version < sorted[i].version;
      } else {
        assert sorted[n] in sorted;
        assert sorted[n] in seen;
      }
    }
    InsertIncreasing(sorted, mig, n);
    forall m ensures m in sorted[..n] + [mig] + sorted[n..] <==> m in seen + [mig] {
      InsertMembers(sorted, mig, n, m);
    }
  }

  lemma InsertIncreasing(sorted: seq<Migration>, mig: Migration, n: nat)
    requires Increasing(sorted) && n <= |sorted|
    requires forall i :: 0 <= i < n ==> sorted[i].version < mig.version
    requires forall i :: n <= i < |sorted| ==> mig.version < sorted[i].version
    ensures Increasing(sorted[..n] + [mig] + sorted[n..])
  {
    var t := sorted[..n] + [mig] + sorted[n..];
    assert forall i :: 0 <= i < |t| ==> t[i] == if i < n then sorted[i] else if i == n then mig else sorted[i - 1];
  }

  /** The loop over the directory, rejecting bad names and versions seen before. */
  method ReadFiles(read: File -> Entry, files: seq<File>) returns (migs: seq<Migration>, ok: bool)
    ensures ok <==> !Unreadable(read, files)
    ensures ok ==>
              Covers(read, files, |files|, migs) &&
              forall a, b :: 0 <= a < b < |migs| ==> migs[a].version != migs[b].version
  {
    migs, ok := [], true;
    var seen: map<int, nat> := map[];
    for i := 0 to |files|
      invariant ok && Covers(read, files, i, migs)
      invariant forall k :: 0 <= k < |migs| ==> migs[k].version in seen
      invariant forall k :: 0 <= k < i && read(files[k]).Embeds? ==> SeenAt(seen, read(files[k]).migration.version, k)
      invariant forall v :: v in seen ==>
                  seen[v] < i && read(files[seen[v]]).Embeds? && read(files[seen[v]]).migration.version == v
      invariant forall a, b :: 0 <= a < b < |migs| ==> migs[a].version != migs[b].version
    {
      match read(files[i]) {
        case Ignored =>
          CoversMore(read, files, i, migs, migs);
        case BadName =>
          return migs, false;
        case Embeds(mig) =>
          if mig.version in seen {
            assert SameVersion(read, files[seen[mig.version]], files[i]);
            return migs, false;
          }
          CoversMore(read, files, i, migs, migs + [mig]);
          migs := migs + [mig];
          seen := seen[mig.version := i];
      }
    }
  }

  predicate SeenAt(seen: map<int, nat>, version: int, place: nat) {
    version in seen && seen[version] == place
  }

  /** Reading, ordering, and looking for gaps. A result is what every start-up relies on: versions
      1, 2, 3, ... without a gap, from exactly the SQL files; there is one unless some file has a bad
      name, two have the same version, or a version is missing. */
  method Load(digest: string -> Digest, files: seq<File>) returns (result: Option<seq<Migration>>)
    ensures result.Some? ==> Embedded(result.value) && Covers(Reader(digest), files, |files|, result.value)
    ensures result.Some? <==> !Unreadable(Reader(digest), files) && !HasGap(Reader(digest), files)
  {
    var read := Reader(digest);
    var migs, ok := ReadFiles(read, files);
    if !ok {
      return None;
    }
    var sorted := SortByVersion(migs);
    for i := 0 to |sorted|
      invariant forall k :: 0 <= k < i ==> sorted[k].version == k + 1
    {
      if sorted[i].version != i + 1 {
        GapFound(read, files, sorted, i);
        return None;
      }
    }
    result := Some(sorted);
    LoadedHasNoGap(read, files, sorted);
  }

  /** Some SQL file has no version and name, or two have the same version. */
  ghost predicate Unreadable(read: File -> Entry, files: seq<File>) {
    (exists i :: 0 <= i < |files| && read(files[i]).BadName?) ||
    (exists i, j :: 0 <= i < j < |files| && SameVersion(read, files[i], files[j]))
  }

  ghost predicate SameVersion(read: File -> Entry, a: File, b: File) {
    read(a).Embeds? && read(b).Embeds? && read(a).migration.version == read(b).migration.version
  }

  /** Some version is not positive, or has no file for a version from 1 up to it. */
  ghost predicate HasGap(read: File -> Entry, files: seq<File>) {
    exists mig :: From(read, files, |files|, mig) &&
      (mig.version < 1 || exists w :: 1 <= w < mig.version && NoFileFor(read, files, w))
  }

  ghost predicate NoFileFor(read: File -> Entry, files: seq<File>, w: int) {
    forall mig :: From(read, files, |files|, mig) ==> mig.version != w
  }

  lemma GapFound(read: File -> Entry, files: seq<File>, sorted: seq<Migration>, i: nat)
    requires Increasing(sorted) && Covers(read, files, |files|, sorted) && i < |sorted|
    requires (forall k :: 0 <= k < i ==> sorted[k].version == k + 1) && sorted[i].version != i + 1
    ensures HasGap(read, files)
  {
    assert sorted[i] in sorted;
    var v := sorted[i].version;
    assert i > 0 ==> sorted[i - 1].version == i < v;
    if v >= 1 {
      forall mig | From(read, files, |files|, mig) ensures mig.version != i + 1 {
        assert mig in sorted;
        var k :| 0 <= k < |sorted| && sorted[k] == mig;
      }
      assert NoFileFor(read, files, i + 1);
    }
  }

  /** Conversely, nothing with a bad name or a gap is ever loaded. */
  lemma LoadedHasNoGap(read: File -> Entry, files: seq<File>, migs: seq<Migration>)
    requires Embedded(migs) && Covers(read, files, |files|, migs)
    ensures !HasGap(read, files) && forall i :: 0 <= i < |files| ==> !read(files[i]).BadName?
  {
    forall mig | From(read, files, |files|, mig) ensures mig in migs && 1 <= mig.version <= |migs| {
      var k :| 0 <= k < |migs| && migs[k] == mig;
    }
    forall w | 1 <= w <= |migs| ensures !NoFileFor(read, files, w) {
      assert migs[w - 1] in migs;
      assert From(read, files, |files|, migs[w - 1]);
    }
  }
}
