/** The values of the schema migration manager and the one committed step that a start-up takes
    next. What a migration's SQL does, what a fingerprint query sees and which statements fail
    are left to an environment. */
module MigrationModel {
  import opened Text
  import opened Collections
  import SqlScript

  predicate Hex(c: char) { '0' <= c <= '9' || 'a' <= c <= 'f' }

  /** A SHA-256 digest in hexadecimal. */
  type Digest = s: string | |s| == 64 && forall i :: 0 <= i < 64 ==> Hex(s[i]) witness seq(64, i => '0')

  /** A value of a `char(64)` column: shorter text is padded with blanks. */
  type Char64 = s: string | |s| == 64 witness seq(64, i => ' ')

  datatype Migration = Migration(version: int, name: string, sql: string, checksum: Digest)

  /** A row of `schema_migrations`; the version is its key. */
  datatype Row = Row(name: string, checksum: Char64, baseline: bool)

  type Ledger = map<int, Row>

  datatype Db<S> = Db(schema: S, ledger: Ledger)

  /** `run` is the effect of a migration's script on a schema state, or its failure; `fingerprint`
      is the legacy query of one version; `hasAppSchema` asks for `items` or `work_orders`. */
  datatype Env<!S> = Env(run: (Migration, S) -> Option<S>, fingerprint: (int, S) -> bool, hasAppSchema: S -> bool)

  /** The `run` of a database that executes scripts: the transaction wrappers are stripped, and a
      script with nothing left is not sent at all. */
  function Executing<S>(exec: (string, S) -> Option<S>): (Migration, S) -> Option<S> {
    (mig: Migration, schema: S) =>
      var script := SqlScript.Script(mig.sql);
      if script == "" then Some(schema) else exec(script, schema)
  }

  /** Transaction wrapper lines around a script do not change what it does, as this manager owns the
      transaction. */
  lemma WrappersDoNotMatter<S>(exec: (string, S) -> Option<S>, mig: Migration, wrapped: Migration, schema: S,
                               begin: string, commit: string)
    requires SqlScript.IsWrapper(begin) && '\n' !in begin && SqlScript.IsWrapper(commit) && '\n' !in commit
    requires wrapped.sql == begin + ['\n'] + (mig.sql + ['\n'] + commit)
    ensures Executing(exec)(wrapped, schema) == Executing(exec)(mig, schema)
  {
    SqlScript.WrappedIsSame(begin, mig.sql, commit);
  }

  datatype Outcome =
    | Done
    | External
    | NoMigrations
    | UnknownVersion(version: int)
    | NameMismatch(version: int)
    | ChecksumMismatch(version: int)
    | Gap(version: int)
    | FingerprintsNotContiguous(version: int)
    | FirstFingerprintIncomplete
    | FingerprintWithoutMigration(version: int)
    | CountMismatch(records: nat, embedded: nat)

  const REPLAY_SAFE := 14

  const LAST_FINGERPRINT := 41

  /** The fingerprinted versions in order: 1 to 41 without 14. */
  function LegacyChecks(): (checks: seq<int>)
    ensures |checks| == 40
    ensures forall i :: 0 <= i < 40 ==> checks[i] == if i < 13 then i + 1 else i + 2
  {
    seq(40, i => if i < 13 then i + 1 else i + 2)
  }

  /** What the loader guarantees: versions 1, 2, 3, ... */
  ghost predicate Embedded(migs: seq<Migration>) {
    forall i :: 0 <= i < |migs| ==> migs[i].version == i + 1
  }

  // ---------------------------------------------------------------- history

  predicate RowFits(migs: seq<Migration>, v: int, row: Row) {
    1 <= v <= |migs| && row.name == migs[v - 1].name && row.checksum == migs[v - 1].checksum
  }

  /** On a `char(64)` column the trimmed comparison of the source is plain equality. */
  lemma TrimmedChecksum(stored: Char64, embedded: Digest)
    ensures GoTrim(stored) == embedded <==> stored == embedded
  {
    assert Hex(embedded[0]) && Hex(embedded[63]);
    TrimmedIsFixed(GoSpace, embedded);
    var left := TrimLeft(GoSpace, stored);
    assert |GoTrim(stored)| == 64 ==> left == stored[0..] == stored;
  }

  ghost predicate RowsFit(migs: seq<Migration>, ledger: Ledger) {
    forall v :: v in ledger ==> RowFits(migs, v, ledger[v])
  }

  ghost predicate NoGap(ledger: Ledger) {
    forall v, w :: 1 <= v < w && w in ledger && v !in ledger ==> v == REPLAY_SAFE
  }

  /** The history this binary accepts. */
  ghost predicate Accepts(migs: seq<Migration>, ledger: Ledger) {
    RowsFit(migs, ledger) && NoGap(ledger)
  }

  /** The ledger records exactly the embedded set. */
  ghost predicate Exact(migs: seq<Migration>, ledger: Ledger) {
    RowsFit(migs, ledger) && forall v :: 1 <= v <= |migs| ==> v in ledger
  }

  // ---------------------------------------------------------------- baseline

  datatype Baseline = Fresh | Refused(reason: Outcome) | Record(versions: seq<int>)

  /** Length of the leading run of detected fingerprints. */
  function LeadingRun(found: seq<bool>): (n: nat)
    ensures n <= |found|
    ensures forall i :: 0 <= i < n ==> found[i]
    ensures n < |found| ==> !found[n]
  {
    if found == [] || !found[0] then 0 else 1 + LeadingRun(found[1..])
  }

  /** First position from i on that satisfies the flag, or the length. */
  function FirstFrom(flags: seq<bool>, i: nat): (n: nat)
    requires i <= |flags|
    ensures i <= n <= |flags|
    ensures n < |flags| ==> flags[n]
    ensures forall k :: i <= k < n ==> !flags[k]
    decreases |flags| - i
  {
    if i == |flags| || flags[i] then i else FirstFrom(flags, i + 1)
  }

  function Found<S>(env: Env<S>, schema: S): (found: seq<bool>)
    ensures |found| == 40
  {
    seq(40, i requires 0 <= i < 40 => env.fingerprint(LegacyChecks()[i], schema))
  }

  /** The decision of the legacy bootstrap on an empty ledger. */
  function Decide<S>(env: Env<S>, migs: seq<Migration>, schema: S): Baseline {
    if !env.hasAppSchema(schema) then Fresh
    else
      var found := Found(env, schema);
      var run := LeadingRun(found);
      var late := FirstFrom(found, run);
      if late < 40 then Refused(FingerprintsNotContiguous(LegacyChecks()[late]))
      else if run == 0 then Refused(FirstFingerprintIncomplete)
      else if |migs| < LegacyChecks()[run - 1] then Refused(FingerprintWithoutMigration(FirstBeyond(|migs|)))
      else Record(LegacyChecks()[..run])
  }

  /** The first fingerprinted version above n. */
  function FirstBeyond(n: nat): int {
    if n + 1 == REPLAY_SAFE then n + 2 else n + 1
  }

  function BaselineRows(migs: seq<Migration>, versions: seq<int>): Ledger {
    map v | v in versions && 1 <= v <= |migs| :: Row(migs[v - 1].name, migs[v - 1].checksum, true)
  }

  // ---------------------------------------------------------------- one committed step

  /** The lowest version from v on without a row, at most |migs| + 1. */
  function FirstMissing(last: nat, ledger: Ledger, v: nat): (m: nat)
    requires v <= last + 1
    ensures v <= m <= last + 1
    ensures m <= last ==> m !in ledger
    ensures forall w :: v <= w < m ==> w in ledger
    decreases last + 1 - v
  {
    if v <= last && v in ledger then FirstMissing(last, ledger, v + 1) else v
  }

  /** The transaction of one migration: its effect and its row together, or neither. */
  function Apply<S>(env: Env<S>, mig: Migration, db: Db<S>): Option<Db<S>> {
    if mig.version in db.ledger then None
    else
      match env.run(mig, db.schema)
      case None => None
      case Some(schema) => Some(Db(schema, db.ledger[mig.version := Row(mig.name, mig.checksum, false)]))
  }

  /** A script of nothing but wrapper lines and space is recorded and leaves the schema alone. */
  lemma WrapperOnlyIsRecorded<S>(env: Env<S>, exec: (string, S) -> Option<S>, mig: Migration, db: Db<S>)
    requires env.run == Executing(exec) && mig.version !in db.ledger
    requires SqlScript.OnlyWrappers(mig.sql)
    ensures Apply(env, mig, db) == Some(Db(db.schema, db.ledger[mig.version := Row(mig.name, mig.checksum, false)]))
  {
    SqlScript.OnlyWrappersIsEmpty(mig.sql);
    assert env.run(mig, db.schema) == Executing(exec)(mig, db.schema) == Some(db.schema);
  }

  /** The transaction that a start-up of a binary with these migrations commits next on this
      database, if any. It depends on the database alone. */
  ghost function Step<S>(env: Env<S>, migs: seq<Migration>, db: Db<S>): Option<Db<S>>
    requires Embedded(migs)
  {
    if db.ledger == map[] && Decide(env, migs, db.schema) != Fresh then
      match Decide(env, migs, db.schema)
      case Record(versions) => Some(Db(db.schema, BaselineRows(migs, versions)))
      case _ => None
    else if !Accepts(migs, db.ledger) then None
    else
      var v := FirstMissing(|migs|, db.ledger, 1);
      if v > |migs| then None else Apply(env, migs[v - 1], db)
  }

  /** The step as a function of the database. */
  ghost function Next<S>(env: Env<S>, migs: seq<Migration>): Db<S> -> Option<Db<S>>
    requires Embedded(migs)
  {
    db => Step(env, migs, db)
  }

  /** Filling the first missing version keeps an accepted history accepted. */
  lemma FillKeepsAccepted(migs: seq<Migration>, ledger: Ledger, v: int, row: Row)
    requires Accepts(migs, ledger)
    requires 1 <= v && RowFits(migs, v, row)
    requires forall w :: 1 <= w < v ==> w in ledger
    ensures Accepts(migs, ledger[v := row])
  {}

  /** Pigeonhole: fitting rows, one for each version, as many as there are embedded migrations,
      record exactly the embedded set. */
  lemma CountImpliesExact(migs: seq<Migration>, ledger: Ledger)
    requires RowsFit(migs, ledger) && |ledger| == |migs|
    ensures Exact(migs, ledger)
  {
    assert ledger.Keys <= Versions(|migs|);
    SubsetOfSameSize(ledger.Keys, Versions(|migs|));
  }

  function Versions(n: nat): (s: set<int>)
    ensures forall v :: v in s <==> 1 <= v <= n
    ensures |s| == n
  {
    if n == 0 then {} else Versions(n - 1) + {n}
  }

  lemma SubsetOfSameSize<T>(a: set<T>, b: set<T>)
    requires a <= b && |a| == |b|
    ensures a == b
  {
    if a != b {
      var x :| x in b && x !in a;
      SubsetSize(a, b - {x});
    }
  }

  // ---------------------------------------------------------------- what a migration executes

  /** A migration without transaction words executes its text. */
  lemma CleanMigrationExecutes<S>(exec: (string, S) -> Option<S>, mig: Migration, schema: S)
    requires !SqlScript.Contains(mig.sql, "BEGIN;") && !SqlScript.Contains(mig.sql, "COMMIT;")
    ensures Executing(exec)(mig, schema) == if GoTrim(mig.sql) == "" then Some(schema)
            else exec(GoTrim(mig.sql), schema)
  {
    SqlScript.CleanScriptIsExecuted(mig.sql);
  }
}
