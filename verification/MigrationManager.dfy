/** The migration manager as it runs: statements against a database that may fail, transactions
    that may be lost, and one start-up that walks through them. */
module MigrationManager {
  import opened Text
  import opened Collections
  import opened Chains
  import opened MigrationModel

  /** The database as other sessions see it. */
  class Database<S> {
    var schema: S
    var ledger: Ledger

    constructor (schema: S)
      ensures State() == Db(schema, map[])
    {
      this.schema := schema;
      ledger := map[];
    }

    function State(): Db<S>
      reads this
    {
      Db(schema, ledger)
    }

    /** Ends a transaction that worked on a private copy. A commit can fail, and it can take
        effect and still be reported as failed when the connection is lost. */
    method Commit(work: Db<S>, reliable: bool) returns (failed: bool)
      modifies this
      ensures State() == work || State() == old(State())
      ensures !failed ==> State() == work
      ensures reliable ==> !failed
    {
      var done: bool := *;
      failed := *;
      if reliable || !failed {
        done, failed := true, false;
      }
      if done {
        schema, ledger := work.schema, work.ledger;
      }
    }
  }

  /** A statement on the connection: cancelled, timed out, connection lost, or fine. */
  method Statement(reliable: bool) returns (failed: bool)
    ensures reliable ==> !failed
  {
    failed := *;
    if reliable {
      failed := false;
    }
  }

  datatype Applied = Applied(version: int, name: string, checksum: Char64)

  /** The rows of these versions in version order, each once. */
  ghost predicate ListsOf(rows: seq<Applied>, ledger: Ledger, versions: set<int>) {
    (forall i, j :: 0 <= i < j < |rows| ==> rows[i].version < rows[j].version) &&
    (forall i :: 0 <= i < |rows| ==>
     rows[i].version in versions && rows[i].version in ledger &&
     rows[i] == AsApplied(rows[i].version, ledger[rows[i].version])) &&
    (forall v :: v in versions ==> HasVersion(rows, v))
  }

  ghost predicate HasVersion(rows: seq<Applied>, v: int) {
    exists i :: 0 <= i < |rows| && rows[i].version == v
  }

  ghost predicate Lists(rows: seq<Applied>, ledger: Ledger) {
    ListsOf(rows, ledger, ledger.Keys)
  }

  function AsApplied(v: int, row: Row): Applied {
    Applied(v, row.name, row.checksum)
  }

  lemma ListsOneMore(rows: seq<Applied>, ledger: Ledger, versions: set<int>, v: int)
    requires ListsOf(rows, ledger, versions) && v in ledger && forall w :: w in versions ==> w < v
    ensures ListsOf(rows + [AsApplied(v, ledger[v])], ledger, versions + {v})
  {
    var longer := rows + [AsApplied(v, ledger[v])];
    forall w | w in versions + {v} ensures HasVersion(longer, w) {
      if w == v {
        assert longer[|rows|].version == w;
      } else {
        var i :| 0 <= i < |rows| && rows[i].version == w;
        assert longer[i].version == w;
      }
    }
  }

  ghost predicate IsLeast(m: int, s: set<int>) {
    m in s && forall v :: v in s ==> m <= v
  }

  lemma {:induction false} HasLeast(s: set<int>)
    requires s != {}
    ensures exists m :: IsLeast(m, s)
  {
    var x := SomeMember(s);
    if s == {x} {
      assert IsLeast(x, s);
    } else {
      HasLeast(s - {x});
      var y :| IsLeast(y, s - {x});
      var m := if x < y then x else y;
      forall v | v in s ensures m <= v {
        assert v == x || v in s - {x};
      }
      assert IsLeast(m, s);
    }
  }

  /** `SELECT ... ORDER BY version`. */
  method ReadApplied<S>(db: Database<S>, reliable: bool) returns (rows: seq<Applied>, failed: bool)
    ensures !failed ==> Lists(rows, db.ledger)
    ensures reliable ==> !failed
  {
    rows := [];
    failed := Statement(reliable);
    if failed {
      return;
    }
    var left := db.ledger.Keys;
    while left != {}
      invariant left <= db.ledger.Keys
      invariant ListsOf(rows, db.ledger, db.ledger.Keys - left)
      invariant forall v, w :: v in left && w in db.ledger && w !in left ==> w < v
      decreases left
    {
      HasLeast(left);
      ghost var least :| IsLeast(least, left);
      var v :| v in left && forall w :: w in left ==> v <= w;
      ListsOneMore(rows, db.ledger, db.ledger.Keys - left, v);
      assert db.ledger.Keys - (left - {v}) == (db.ledger.Keys - left) + {v};
      rows := rows + [AsApplied(v, db.ledger[v])];
      left := left - {v};
    }
    assert db.ledger.Keys - left == db.ledger.Keys;
  }

  // ---------------------------------------------------------------- history

  /** As the source checks a row, on the trimmed checksum. */
  method CheckRow(migs: seq<Migration>, row: Applied) returns (problem: Outcome)
    ensures problem == RowProblem(migs, row)
  {
    if !(1 <= row.version <= |migs|) {
      return UnknownVersion(row.version);
    }
    var mig := migs[row.version - 1];
    if row.name != mig.name {
      return NameMismatch(row.version);
    }
    TrimmedChecksum(row.checksum, mig.checksum);
    if GoTrim(row.checksum) != mig.checksum {
      return ChecksumMismatch(row.version);
    }
    problem := Done;
  }

  function RowProblem(migs: seq<Migration>, row: Applied): Outcome {
    if !(1 <= row.version <= |migs|) then UnknownVersion(row.version)
    else if row.name != migs[row.version - 1].name then NameMismatch(row.version)
    else if row.checksum != migs[row.version - 1].checksum then ChecksumMismatch(row.version)
    else Done
  }

  ghost predicate GapAt(ledger: Ledger, v: int) {
    1 <= v && v !in ledger && v != REPLAY_SAFE && exists w :: w in ledger && v < w
  }

  ghost predicate IsRowProblem(o: Outcome) {
    o.UnknownVersion? || o.NameMismatch? || o.ChecksumMismatch?
  }

  /** The problem of the lowest row that does not fit. */
  ghost predicate LowestRowProblem(migs: seq<Migration>, ledger: Ledger, o: Outcome) {
    IsRowProblem(o) && o.version in ledger && o == RowProblem(migs, AsApplied(o.version, ledger[o.version])) &&
    forall v :: v in ledger && v < o.version ==> RowFits(migs, v, ledger[v])
  }

  ghost predicate LowestGap(ledger: Ledger, v: int) {
    GapAt(ledger, v) && forall w :: GapAt(ledger, w) ==> v <= w
  }

  lemma NoGapIff(ledger: Ledger)
    ensures NoGap(ledger) <==> forall v :: !GapAt(ledger, v)
  {
    if NoGap(ledger) {
      forall v ensures !GapAt(ledger, v) {}
    }
    if forall v :: !GapAt(ledger, v) {
      forall v, w | 1 <= v < w && w in ledger && v !in ledger ensures v == REPLAY_SAFE {
        assert !GapAt(ledger, v);
      }
    }
  }

  /** The rows in version order, collecting the applied versions and the highest of them. */
  method ValidateRows(migs: seq<Migration>, applied: seq<Applied>, ghost ledger: Ledger)
      returns (problem: Outcome, appliedSet: set<int>, maxApplied: nat)
    requires Lists(applied, ledger)
    ensures problem == Done || LowestRowProblem(migs, ledger, problem)
    ensures problem == Done ==> RowsFit(migs, ledger) && appliedSet == ledger.Keys
    ensures problem == Done ==>
              (forall v :: v in ledger ==> v <= maxApplied) && (maxApplied == 0 || maxApplied in ledger)
  {
    appliedSet, maxApplied, problem := {}, 0, Done;
    for i := 0 to |applied|
      invariant problem == Done
      invariant forall k :: 0 <= k < i ==> applied[k].version in appliedSet
      invariant appliedSet <= ledger.Keys
      invariant forall v :: v in appliedSet ==> RowFits(migs, v, ledger[v]) && v <= maxApplied
      invariant maxApplied == 0 || maxApplied in appliedSet
    {
      var row := applied[i];
      problem := CheckRow(migs, row);
      if problem != Done {
        forall v | v in ledger && v < row.version ensures RowFits(migs, v, ledger[v]) {
          assert HasVersion(applied, v);
          var k :| 0 <= k < |applied| && applied[k].version == v;
          assert k < i;
        }
        return;
      }
      appliedSet := appliedSet + {row.version};
      if row.version > maxApplied {
        maxApplied := row.version;
      }
    }
    assert ledger.Keys <= appliedSet by {
      forall v | v in ledger.Keys ensures v in appliedSet {
        assert HasVersion(applied, v);
      }
    }
  }

  /** Rows first, in version order; then the gaps from below. */
  method ValidateHistory(migs: seq<Migration>, applied: seq<Applied>, ghost ledger: Ledger) returns (problem: Outcome)
    requires Lists(applied, ledger)
    ensures problem == Done <==> Accepts(migs, ledger)
    ensures problem == Done || LowestRowProblem(migs, ledger, problem) ||
            (problem.Gap? && RowsFit(migs, ledger) && LowestGap(ledger, problem.version))
  {
    var appliedSet, maxApplied;
    problem, appliedSet, maxApplied := ValidateRows(migs, applied, ledger);
    if problem != Done {
      return;
    }
    problem := FindGap(appliedSet, maxApplied, ledger);
  }

  /** The gaps from below. */
  method FindGap(appliedSet: set<int>, maxApplied: nat, ghost ledger: Ledger) returns (problem: Outcome)
    requires appliedSet == ledger.Keys
    requires (forall v :: v in ledger ==> v <= maxApplied) && (maxApplied == 0 || maxApplied in ledger)
    ensures problem == Done <==> NoGap(ledger)
    ensures problem == Done || (problem.Gap? && LowestGap(ledger, problem.version))
  {
    NoGapIff(ledger);
    for v := 1 to maxApplied + 1
      invariant forall w :: GapAt(ledger, w) ==> v <= w
    {
      if v !in appliedSet && v != REPLAY_SAFE {
        assert maxApplied in ledger && v < maxApplied;
        assert GapAt(ledger, v);
        return Gap(v);
      }
    }
    problem := Done;
  }

  // ---------------------------------------------------------------- transactions

  /** One migration in its own transaction. */
  method ApplyOne<S>(db: Database<S>, env: Env<S>, mig: Migration, reliable: bool) returns (outcome: Outcome)
    modifies db
    ensures db.State() == old(db.State()) || Apply(env, mig, old(db.State())) == Some(db.State())
    ensures outcome == Done ==> Apply(env, mig, old(db.State())) == Some(db.State())
    ensures outcome == Done || outcome == External
    ensures reliable && Apply(env, mig, old(db.State())).Some? ==> outcome == Done
  {
    var failed := Statement(reliable);
    if failed {
      return External;
    }
    var executed := env.run(mig, db.schema);
    failed := Statement(reliable);
    if failed || executed.None? {
      return External;
    }
    failed := Statement(reliable);
    if failed || mig.version in db.ledger {
      return External;
    }
    failed := db.Commit(Db(executed.value, db.ledger[mig.version := Row(mig.name, mig.checksum, false)]), reliable);
    outcome := if failed then External else Done;
  }

  /** The fingerprint queries one after the other, stopping at the first that exists after a missing one. */
  method Inspect<S>(db: Database<S>, env: Env<S>, reliable: bool) returns (detected: seq<bool>, outcome: Outcome)
    ensures outcome == Done ==> detected == Found(env, db.schema) && FirstFrom(detected, LeadingRun(detected)) == 40
    ensures outcome != Done ==> outcome == External || LateFingerprint(Found(env, db.schema), outcome)
    ensures reliable ==> outcome != External
  {
    ghost var found := Found(env, db.schema);
    var checks := LegacyChecks();
    detected := [];
    var missingSeen := false;
    for i := 0 to 40
      invariant detected == found[..i]
      invariant missingSeen <==> LeadingRun(found) < i
      invariant LeadingRun(found) >= i || FirstFrom(found, LeadingRun(found)) >= i
    {
      var failed := Statement(reliable);
      if failed {
        return [], External;
      }
      var present := env.fingerprint(checks[i], db.schema);
      assert present == found[i];
      detected := detected + [present];
      if !present {
        missingSeen := true;
        continue;
      }
      if missingSeen {
        return [], FingerprintsNotContiguous(checks[i]);
      }
    }
    outcome := Done;
  }

  ghost predicate LateFingerprint(found: seq<bool>, o: Outcome)
    requires |found| == 40
  {
    var late := FirstFrom(found, LeadingRun(found));
    late < 40 && o == FingerprintsNotContiguous(LegacyChecks()[late])
  }

  lemma BaselineSnoc(migs: seq<Migration>, versions: seq<int>, v: int)
    requires 1 <= v <= |migs|
    ensures BaselineRows(migs, versions + [v]) ==
              BaselineRows(migs, versions)[v := Row(migs[v - 1].name, migs[v - 1].checksum, true)]
  {
    assert forall w :: w in versions + [v] <==> w in versions || w == v;
  }

  /** One row for every detected version, in one transaction's private copy. */
  method CollectBaseline(migs: seq<Migration>, detected: seq<bool>, reliable: bool)
      returns (baselined: seq<int>, rows: Ledger, outcome: Outcome)
    requires Embedded(migs) && |detected| == 40 && LeadingRun(detected) > 0
    ensures outcome == Done ==> LegacyChecks()[LeadingRun(detected) - 1] <= |migs|
    ensures outcome == Done ==>
              baselined == LegacyChecks()[..LeadingRun(detected)] && rows == BaselineRows(migs, baselined)
    ensures outcome != Done ==>
              outcome == External ||
              (outcome == FingerprintWithoutMigration(FirstBeyond(|migs|)) &&
               |migs| < LegacyChecks()[LeadingRun(detected) - 1])
    ensures reliable ==> outcome != External
  {
    var checks := LegacyChecks();
    baselined, rows := [], map[];
    for i := 0 to 40
      invariant i <= LeadingRun(detected)
      invariant baselined == checks[..i]
      invariant i > 0 ==> checks[i - 1] <= |migs|
      invariant rows == BaselineRows(migs, baselined)
    {
      if !detected[i] {
        break;
      }
      if checks[i] > |migs| {
        return baselined, rows, FingerprintWithoutMigration(checks[i]);
      }
      var failed := Statement(reliable);
      if failed {
        return baselined, rows, External;
      }
      var mig := migs[checks[i] - 1];
      assert mig.version == checks[i];
      BaselineSnoc(migs, baselined, checks[i]);
      TakeOneMore(checks, i);
      rows := rows[mig.version := Row(mig.name, mig.checksum, true)];
      baselined := baselined + [mig.version];
    }
    outcome := Done;
  }

  /** The automatic baseline of a database without ledger rows. */
  method BootstrapLegacy<S>(db: Database<S>, env: Env<S>, migs: seq<Migration>, reliable: bool)
      returns (baselined: seq<int>, outcome: Outcome)
    requires Embedded(migs) && db.ledger == map[]
    modifies db
    ensures db.schema == old(db.schema)
    ensures db.ledger == map[] ||
            (Decide(env, migs, db.schema) == Record(VersionsOf(env, db.schema)) &&
             db.ledger == BaselineRows(migs, VersionsOf(env, db.schema)))
    ensures outcome == Done ==>
              match Decide(env, migs, db.schema)
              case Fresh => baselined == [] && db.ledger == map[]
              case Record(versions) => baselined == versions && db.ledger == BaselineRows(migs, versions)
              case Refused(_) => false
    ensures outcome != Done ==>
              outcome == External || (Decide(env, migs, db.schema) == Refused(outcome) && db.ledger == map[])
    ensures reliable ==> outcome != External
  {
    var failed := Statement(reliable);
    if failed {
      return [], External;
    }
    if !env.hasAppSchema(db.schema) {
      return [], Done;
    }
    var detected;
    detected, outcome := Inspect(db, env, reliable);
    if outcome != Done {
      return [], outcome;
    }
    if !detected[0] {
      return [], FirstFingerprintIncomplete;
    }
    var rows;
    baselined, rows, outcome := CollectBaseline(migs, detected, reliable);
    if outcome != Done {
      return [], outcome;
    }
    failed := db.Commit(Db(db.schema, rows), reliable);
    if failed {
      return [], External;
    }
  }

  function VersionsOf<S>(env: Env<S>, schema: S): seq<int> {
    LegacyChecks()[..LeadingRun(Found(env, schema))]
  }

  // ---------------------------------------------------------------- start-up

  datatype Result = Result(latestVersion: int, appliedNow: seq<int>, baselined: seq<int>)

  ghost predicate Ascending(s: seq<int>) {
    forall i, j :: 0 <= i < j < |s| ==> s[i] < s[j]
  }

  /** No bootstrap is due: the ledger has rows, or there is no application schema. */
  ghost predicate PastBootstrap<S>(env: Env<S>, migs: seq<Migration>, db: Db<S>) {
    db.ledger != map[] || Decide(env, migs, db.schema) == Fresh
  }

  lemma StepIsApply<S>(env: Env<S>, migs: seq<Migration>, db: Db<S>, i: nat)
    requires Embedded(migs) && i < |migs|
    requires PastBootstrap(env, migs, db) && Accepts(migs, db.ledger)
    requires (forall v :: 1 <= v <= i ==> v in db.ledger) && i + 1 !in db.ledger
    ensures Step(env, migs, db) == Apply(env, migs[i], db)
  {
    var m := FirstMissing(|migs|, db.ledger, 1);
    assert m == i + 1;
  }

  lemma ApplyKeepsAccepted<S>(env: Env<S>, migs: seq<Migration>, db: Db<S>, i: nat)
    requires Embedded(migs) && i < |migs|
    requires Accepts(migs, db.ledger) && Apply(env, migs[i], db).Some?
    requires forall v :: 1 <= v <= i ==> v in db.ledger
    ensures Accepts(migs, Apply(env, migs[i], db).value.ledger)
  {
    var row := Row(migs[i].name, migs[i].checksum, false);
    assert Apply(env, migs[i], db).value.ledger == db.ledger[i + 1 := row];
    FillKeepsAccepted(migs, db.ledger, i + 1, row);
  }

  lemma ExactIsAccepted(migs: seq<Migration>, ledger: Ledger)
    requires Exact(migs, ledger)
    ensures |ledger| == |migs| && Accepts(migs, ledger)
  {
    var keys := ledger.Keys;
    assert forall v :: v in keys ==> RowFits(migs, v, ledger[v]);
    assert keys == Versions(|migs|);
    assert |ledger| == |keys|;
  }

  lemma ExactHasNoStep<S>(env: Env<S>, migs: seq<Migration>, db: Db<S>)
    requires Embedded(migs) && |migs| > 0 && Exact(migs, db.ledger)
    ensures Step(env, migs, db).None?
  {
    assert 1 in db.ledger;
    assert FirstMissing(|migs|, db.ledger, 1) > |migs|;
  }

  /** Before the i-th turn of the loop: the embedded versions up to i are recorded, and above i
      exactly those read at the start. */
  ghost predicate Progressed(applied: set<int>, ledger: Ledger, i: nat) {
    (forall v :: v in ledger ==> v in applied || v <= i) &&
    (forall v :: v in applied || 1 <= v <= i ==> v in ledger)
  }

  ghost predicate OnTheWay<S(!new)>(env: Env<S>, migs: seq<Migration>, start: Db<S>, now: Db<S>)
    requires Embedded(migs)
  {
    Accepts(migs, now.ledger) && PastBootstrap(env, migs, now) && Leads(Next(env, migs), start, now)
  }

  /** The chain ends here without the ledger being current. */
  ghost predicate Refuses<S>(env: Env<S>, migs: seq<Migration>, db: Db<S>)
    requires Embedded(migs)
  {
    Step(env, migs, db).None? && !Exact(migs, db.ledger)
  }

  ghost predicate Logged(applied: set<int>, i: nat, appliedNow: seq<int>) {
    Ascending(appliedNow) && forall v :: v in appliedNow <==> 1 <= v <= i && v !in applied
  }

  lemma LoggedOne(applied: set<int>, i: nat, appliedNow: seq<int>)
    requires Logged(applied, i, appliedNow) && i + 1 !in applied
    ensures Logged(applied, i + 1, appliedNow + [i + 1])
  {
    assert forall k :: 0 <= k < |appliedNow| ==> appliedNow[k] in appliedNow;
  }

  lemma AppliedOne<S(!new)>(env: Env<S>, migs: seq<Migration>, applied: set<int>, start: Db<S>, now: Db<S>, i: nat,
                            after: Db<S>)
    requires Embedded(migs) && OnTheWay(env, migs, start, now) && Progressed(applied, now.ledger, i)
    requires i < |migs| && i + 1 !in applied && Apply(env, migs[i], now) == Some(after)
    ensures OnTheWay(env, migs, start, after) && Progressed(applied, after.ledger, i + 1)
  {
    StepIsApply(env, migs, now, i);
    ApplyKeepsAccepted(env, migs, now, i);
    LeadsOne(Next(env, migs), start, now);
    ProgressedOne(applied, now.ledger, i, Row(migs[i].name, migs[i].checksum, false));
  }

  lemma ProgressedSkip(applied: set<int>, ledger: Ledger, i: nat)
    requires Progressed(applied, ledger, i) && i + 1 in applied
    ensures Progressed(applied, ledger, i + 1)
  {}

  lemma LoggedSkip(applied: set<int>, i: nat, appliedNow: seq<int>)
    requires Logged(applied, i, appliedNow) && i + 1 in applied
    ensures Logged(applied, i + 1, appliedNow)
  {}

  lemma ProgressedOne(applied: set<int>, ledger: Ledger, i: nat, row: Row)
    requires Progressed(applied, ledger, i)
    ensures Progressed(applied, ledger[i + 1 := row], i + 1)
  {}

  lemma StuckHere<S(!new)>(env: Env<S>, migs: seq<Migration>, applied: set<int>, start: Db<S>, now: Db<S>, i: nat)
    requires Embedded(migs) && OnTheWay(env, migs, start, now) && Progressed(applied, now.ledger, i)
    requires i < |migs| && i + 1 !in applied && Apply(env, migs[i], now).None?
    ensures Refuses(env, migs, now)
  {
    StepIsApply(env, migs, now, i);
    assert i + 1 !in now.ledger;
  }

  /** One turn of the loop that is not skipped. */
  method ApplyPendingOne<S(!new)>(db: Database<S>, env: Env<S>, migs: seq<Migration>, i: nat, reliable: bool,
                                  ghost applied: set<int>, ghost start: Db<S>)
      returns (outcome: Outcome)
    requires Embedded(migs) && i < |migs| && i + 1 !in applied
    requires OnTheWay(env, migs, start, db.State()) && Progressed(applied, db.ledger, i)
    modifies db
    ensures OnTheWay(env, migs, start, db.State())
    ensures outcome == Done || outcome == External
    ensures outcome == Done ==> Progressed(applied, db.ledger, i + 1)
    ensures reliable && outcome != Done ==> Refuses(env, migs, db.State())
  {
    ghost var before := db.State();
    outcome := ApplyOne(db, env, migs[i], reliable);
    ghost var after := db.State();
    if Apply(env, migs[i], before) == Some(after) {
      AppliedOne(env, migs, applied, start, before, i, after);
    } else if reliable {
      StuckHere(env, migs, applied, start, before, i);
    }
  }

  /** The loop over the embedded migrations, skipping the versions read at the start. */
  method ApplyPending<S(!new)>(db: Database<S>, env: Env<S>, migs: seq<Migration>, applied: set<int>, reliable: bool)
      returns (appliedNow: seq<int>, outcome: Outcome)
    requires Embedded(migs) && Accepts(migs, db.ledger) && applied == db.ledger.Keys
    requires PastBootstrap(env, migs, db.State())
    modifies db
    ensures OnTheWay(env, migs, old(db.State()), db.State())
    ensures outcome == Done || outcome == External
    ensures outcome == Done ==> Progressed(applied, db.ledger, |migs|) && Logged(applied, |migs|, appliedNow)
    ensures forall v :: v in appliedNow ==> 1 <= v <= |migs| && v !in applied
    ensures reliable && outcome != Done ==> Refuses(env, migs, db.State())
  {
    appliedNow := [];
    ghost var start := db.State();
    LeadsSelf(Next(env, migs), start);
    for i := 0 to |migs|
      invariant OnTheWay(env, migs, start, db.State())
      invariant Progressed(applied, db.ledger, i)
      invariant Logged(applied, i, appliedNow)
    {
      if migs[i].version in applied {
        ProgressedSkip(applied, db.ledger, i);
        LoggedSkip(applied, i, appliedNow);
        continue;
      }
      outcome := ApplyPendingOne(db, env, migs, i, reliable, applied, start);
      if outcome != Done {
        return;
      }
      LoggedOne(applied, i, appliedNow);
      appliedNow := appliedNow + [migs[i].version];
    }
    outcome := Done;
  }

  method VerifyLatestState<S>(db: Database<S>, migs: seq<Migration>, reliable: bool) returns (outcome: Outcome)
    ensures outcome in {External, Done, CountMismatch(|db.ledger|, |migs|)}
    ensures outcome != External ==> (outcome == Done <==> |db.ledger| == |migs|)
    // What equal counts mean: on a ledger whose rows fit, exactly the embedded set is recorded.
    ensures outcome != External && RowsFit(migs, db.ledger) ==> (outcome == Done <==> Exact(migs, db.ledger))
    ensures reliable ==> outcome != External
  {
    var failed := Statement(reliable);
    if failed {
      return External;
    }
    outcome := if |db.ledger| == |migs| then Done else CountMismatch(|db.ledger|, |migs|);
    if RowsFit(migs, db.ledger) {
      if |db.ledger| == |migs| {
        CountImpliesExact(migs, db.ledger);
      } else if Exact(migs, db.ledger) {
        ExactIsAccepted(migs, db.ledger);
      }
    }
  }

  /** Reading and, on an empty ledger, baselining and reading again. */
  method ReadOrBaseline<S(!new)>(db: Database<S>, env: Env<S>, migs: seq<Migration>, reliable: bool)
      returns (applied: seq<Applied>, baselined: seq<int>, outcome: Outcome)
    requires Embedded(migs)
    modifies db
    ensures Leads(Next(env, migs), old(db.State()), db.State())
    ensures old(db.ledger) != map[] ==> db.State() == old(db.State())
    ensures outcome == Done ==> Lists(applied, db.ledger) && PastBootstrap(env, migs, db.State())
    ensures outcome == Done ==> forall v :: v in baselined <==> v in db.ledger && v !in old(db.ledger)
    ensures outcome != Done ==> outcome == External || RefusalFits(env, migs, db.State(), outcome)
    ensures reliable ==> outcome != External
  {
    LeadsSelf(Next(env, migs), db.State());
    baselined := [];
    var failed;
    applied, failed := ReadApplied(db, reliable);
    if failed {
      return applied, [], External;
    }
    NonEmptyListing(applied, db.ledger);
    if |applied| > 0 {
      return applied, [], Done;
    }
    ghost var before := db.State();
    BaselineMatches(env, migs, db.schema);
    baselined, outcome := BootstrapLegacy(db, env, migs, reliable);
    BaselineLeads(env, migs, before, db.State());
    if outcome == Done && |baselined| > 0 {
      applied, failed := ReadApplied(db, reliable);
      if failed {
        outcome := External;
      }
    }
  }

  lemma StepIsBaseline<S>(env: Env<S>, migs: seq<Migration>, db: Db<S>)
    requires Embedded(migs) && db.ledger == map[] && Decide(env, migs, db.schema).Record?
    ensures Step(env, migs, db) == Some(Db(db.schema, BaselineRows(migs, Decide(env, migs, db.schema).versions)))
  {}

  lemma BaselineLeads<S(!new)>(env: Env<S>, migs: seq<Migration>, before: Db<S>, after: Db<S>)
    requires Embedded(migs) && before.ledger == map[] && after.schema == before.schema
    requires after.ledger == map[] ||
             (Decide(env, migs, before.schema).Record? &&
              after.ledger == BaselineRows(migs, Decide(env, migs, before.schema).versions))
    ensures Leads(Next(env, migs), before, after)
  {
    LeadsSelf(Next(env, migs), before);
    if after.ledger != map[] {
      StepIsBaseline(env, migs, before);
      LeadsOne(Next(env, migs), before, before);
    }
  }

  lemma NonEmptyListing(rows: seq<Applied>, ledger: Ledger)
    requires Lists(rows, ledger)
    ensures |rows| > 0 ==> ledger != map[]
    ensures |rows| == 0 ==> ledger == map[]
  {
    if |rows| > 0 {
      assert rows[0].version in ledger;
    } else if ledger != map[] {
      var v := SomeMember(ledger.Keys);
      assert HasVersion(rows, v);
    }
  }

  /** The rows of a baseline are the recorded versions, and there is at least one. */
  lemma BaselineMatches<S>(env: Env<S>, migs: seq<Migration>, schema: S)
    requires Embedded(migs)
    ensures Decide(env, migs, schema).Record? ==>
              var versions := Decide(env, migs, schema).versions;
              |versions| > 0 && versions[0] in BaselineRows(migs, versions) &&
              forall v :: v in versions <==> v in BaselineRows(migs, versions)
  {
    if Decide(env, migs, schema).Record? {
      var run := LeadingRun(Found(env, schema));
      forall v | v in LegacyChecks()[..run] ensures 1 <= v <= |migs| {}
    }
  }

  /** What a start-up that returns no error has done: the ledger records exactly the embedded set,
      and the versions it gained are those baselined and those applied, the latter in ascending order. */
  ghost predicate Succeeded(migs: seq<Migration>, before: Ledger, after: Ledger, result: Result) {
    |migs| > 0 && Exact(migs, after) && result.latestVersion == |migs| && Ascending(result.appliedNow) &&
    (forall v :: v in result.appliedNow <==> v in after && v !in before && v !in result.baselined) &&
    (forall v :: v in result.baselined ==> v in after && v !in before)
  }

  lemma CurrentStays<S(!new)>(env: Env<S>, migs: seq<Migration>, a: Db<S>, b: Db<S>)
    requires Embedded(migs) && |migs| > 0 && Exact(migs, a.ledger) && Leads(Next(env, migs), a, b)
    ensures a == b
  {
    ExactHasNoStep(env, migs, a);
    var n: nat :| Reaches(Next(env, migs), a, b, n);
  }

  lemma ExactWhenThrough(migs: seq<Migration>, applied: set<int>, ledger: Ledger)
    requires RowsFit(migs, ledger) && Progressed(applied, ledger, |migs|)
    ensures Exact(migs, ledger)
  {}

  /** Validation and the loop, on the rows that were read. */
  method ValidateAndApply<S(!new)>(db: Database<S>, env: Env<S>, migs: seq<Migration>, applied: seq<Applied>,
                                   reliable: bool)
      returns (appliedNow: seq<int>, outcome: Outcome)
    requires Embedded(migs) && |migs| > 0 && Lists(applied, db.ledger) && PastBootstrap(env, migs, db.State())
    modifies db
    ensures Leads(Next(env, migs), old(db.State()), db.State())
    ensures outcome == Done || outcome == External || HistoryProblem(migs, db.ledger, outcome)
    ensures reliable && outcome != Done ==> Refuses(env, migs, db.State())
    ensures outcome == Done ==>
              Exact(migs, db.ledger) && Logged(old(db.ledger.Keys), |migs|, appliedNow) && RowsFit(migs, old(db.ledger))
    ensures Exact(migs, old(db.ledger)) ==> appliedNow == []
  {
    appliedNow := [];
    LeadsSelf(Next(env, migs), db.State());
    outcome := ValidateHistory(migs, applied, db.ledger);
    if outcome != Done {
      return;
    }
    var versions := set i | 0 <= i < |applied| :: applied[i].version;
    ListedVersions(applied, db.ledger, versions);
    ghost var complete := Exact(migs, db.ledger);
    appliedNow, outcome := ApplyPending(db, env, migs, versions, reliable);
    if complete {
      NoMembers(appliedNow);
    }
    if outcome == Done {
      ExactWhenThrough(migs, versions, db.ledger);
    }
  }

  /** One start-up, after the advisory lock is taken. */
  method Migrate<S(!new)>(db: Database<S>, env: Env<S>, migs: seq<Migration>, reliable: bool)
      returns (result: Result, outcome: Outcome)
    requires Embedded(migs)
    modifies db
    // Whatever fails, the database has taken some number of steps of its one chain.
    ensures Leads(Next(env, migs), old(db.State()), db.State())
    ensures outcome == Done ==> Succeeded(migs, old(db.ledger), db.ledger, result)
    // A start-up on a current database changes nothing.
    ensures |migs| > 0 && Exact(migs, old(db.ledger)) ==>
              db.State() == old(db.State()) && result.appliedNow == [] && result.baselined == []
    // A refusal that is not a failure of the connection states a fact about the database.
    ensures outcome == Done || outcome == External || outcome == NoMigrations ||
            RefusalFits(env, migs, db.State(), outcome)
    ensures outcome == NoMigrations <==> migs == []
    // Without failures of the connection the whole chain is taken, and a current database is never refused.
    ensures reliable && |migs| > 0 && outcome != Done ==> Refuses(env, migs, db.State())
  {
    ghost var next := Next(env, migs);
    LeadsSelf(next, db.State());
    result := Result(0, [], []);
    if |migs| == 0 {
      return result, NoMigrations;
    }
    var failed := Statement(reliable);
    if failed {
      return result, External;
    }
    ghost var before := db.State();
    var applied, baselined;
    applied, baselined, outcome := ReadOrBaseline(db, env, migs, reliable);
    ghost var middle := db.State();
    if Exact(migs, before.ledger) {
      CurrentStays(env, migs, before, middle);
    }
    if outcome != Done {
      RefusedHere(env, migs, middle, outcome);
      return;
    }
    var appliedNow;
    appliedNow, outcome := ValidateAndApply(db, env, migs, applied, reliable);
    result := Result(|migs|, appliedNow, baselined);
    LeadsThen(next, before, middle, db.State());
    if Exact(migs, before.ledger) {
      CurrentStays(env, migs, before, db.State());
      NoMembers(baselined);
    }
    RefusedHere(env, migs, db.State(), outcome);
    if outcome == Done {
      GainedVersions(migs, before.ledger, middle.ledger, db.ledger, baselined, appliedNow);
      outcome := VerifyLatestState(db, migs, reliable);
    }
  }

  lemma RefusedHere<S>(env: Env<S>, migs: seq<Migration>, db: Db<S>, o: Outcome)
    requires |migs| > 0 && Embedded(migs)
    ensures RefusalFits(env, migs, db, o) ==> Refuses(env, migs, db)
    ensures RefusalFits(env, migs, db, o) ==> o != NoMigrations
    ensures HistoryProblem(migs, db.ledger, o) ==> RefusalFits(env, migs, db, o)
  {
    if Exact(migs, db.ledger) {
      ExactIsAccepted(migs, db.ledger);
      assert 1 in db.ledger;
    }
  }

  lemma NoMembers(s: seq<int>)
    ensures s == [] || exists v :: v in s
  {
    if |s| > 0 {
      var v := s[0];
      assert v in s;
    }
  }

  lemma GainedVersions(migs: seq<Migration>, before: Ledger, middle: Ledger, after: Ledger, baselined: seq<int>,
                       appliedNow: seq<int>)
    requires |migs| > 0 && Exact(migs, after) && Logged(middle.Keys, |migs|, appliedNow)
    requires middle == before || before == map[]
    requires forall v :: v in baselined <==> v in middle && v !in before
    requires RowsFit(migs, middle)
    ensures Succeeded(migs, before, after, Result(|migs|, appliedNow, baselined))
  {
    forall v | v in middle ensures v in after {
      assert RowFits(migs, v, middle[v]);
    }
    forall v | v in after ensures 1 <= v <= |migs| {
      assert RowFits(migs, v, after[v]);
    }
  }

  ghost predicate HistoryProblem(migs: seq<Migration>, ledger: Ledger, o: Outcome) {
    !Accepts(migs, ledger) &&
    (LowestRowProblem(migs, ledger, o) || (o.Gap? && RowsFit(migs, ledger) && LowestGap(ledger, o.version)))
  }

  ghost predicate RefusalFits<S>(env: Env<S>, migs: seq<Migration>, db: Db<S>, o: Outcome) {
    (db.ledger == map[] && Decide(env, migs, db.schema) == Refused(o)) || HistoryProblem(migs, db.ledger, o)
  }

  lemma ListedVersions(rows: seq<Applied>, ledger: Ledger, versions: set<int>)
    requires Lists(rows, ledger) && versions == set i | 0 <= i < |rows| :: rows[i].version
    ensures versions == ledger.Keys
  {
    forall v | v in ledger ensures v in versions {
      assert HasVersion(rows, v);
    }
  }
}
