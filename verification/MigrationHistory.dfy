/** What the chain of committed steps means for fresh and for legacy databases. */
module MigrationHistory {
  import opened Text
  import opened Chains
  import opened MigrationModel
  import opened MigrationManager
  import opened MigrationProtocol

  /** The schema after running 1 to k, once each, in order. */
  function After<S>(env: Env<S>, line: seq<Migration>, s0: S, k: nat): Option<S>
    requires k <= |line|
  {
    if k == 0 then Some(s0)
    else
      match After(env, line, s0, k - 1)
      case None => None
      case Some(s) => env.run(line[k - 1], s)
  }

  /** A database as the old init scripts left it: the effect of 1 to k and no ledger rows; k = 0 is
      a brand-new database. Fingerprints tell the truth about it, and 0014 may be run again. */
  ghost predicate Legacy<S>(env: Env<S>, line: seq<Migration>, s0: S, k: nat, start: Db<S>) {
    k <= |line| && After(env, line, s0, k) == Some(start.schema) && start.ledger == map[] &&
    (env.hasAppSchema(start.schema) <==> k >= 1) &&
    (forall v :: v in LegacyChecks() ==> (env.fingerprint(v, start.schema) <==> v <= k)) &&
    (k >= REPLAY_SAFE ==> env.run(line[REPLAY_SAFE - 1], start.schema) == Some(start.schema))
  }

  /** A schema that only counts: each migration brings the next number, and does nothing when it is
      run again. */
  function Counting(): Env<int> {
    Env((mig: Migration, s: int) => Some(if mig.version == s + 1 then s + 1 else s),
        (v: int, s: int) => v <= s,
        (s: int) => s >= 1)
  }

  /** Legacy databases exist at every level. */
  lemma {:induction false} LegacyExists(line: seq<Migration>, k: nat)
    requires Embedded(line) && k <= |line|
    ensures After(Counting(), line, 0, k) == Some(k)
    ensures Legacy(Counting(), line, 0, k, Db(k, map[]))
  {
    var env := Counting();
    if k > 0 {
      LegacyExists(line, k - 1);
      assert env.run(line[k - 1], k - 1) == Some(k);
    }
    assert k >= REPLAY_SAFE ==> env.run(line[REPLAY_SAFE - 1], k) == Some(k);
  }

  /** Recorded are 1 to m, except possibly 14. */
  ghost predicate Records(ledger: Ledger, m: nat, with14: bool) {
    forall v :: v in ledger <==> 1 <= v <= m && (v != REPLAY_SAFE || with14)
  }

  function Max(a: nat, b: nat): nat { if a < b then b else a }

  /** The databases on the way from a legacy state: not yet baselined; baselined beyond 14, which
      is still to be replayed; or recorded up to m without a gap. */
  datatype Stage = Untouched | Gapped | Full(m: nat)

  ghost predicate At<S>(env: Env<S>, line: seq<Migration>, s0: S, k: nat, db: Db<S>, stage: Stage)
    requires k <= |line|
  {
    RowsFit(line, db.ledger) &&
    match stage
    case Untouched => db.ledger == map[] && After(env, line, s0, k) == Some(db.schema)
    case Gapped => k > REPLAY_SAFE && Records(db.ledger, k, false) && After(env, line, s0, k) == Some(db.schema)
    case Full(m) =>
      1 <= m <= |line| && (m >= k || (k == REPLAY_SAFE && m + 1 == k)) && Records(db.ledger, m, true) &&
      After(env, line, s0, Max(m, k)) == Some(db.schema)
  }

  /** Where the next committed step leads. */
  function NextStage(k: nat, stage: Stage): Stage {
    match stage
    case Untouched =>
      if k == 0 then Full(1)
      else if k < REPLAY_SAFE then Full(k)
      else if k == REPLAY_SAFE then Full(k - 1)
      else Gapped
    case Gapped => Full(k)
    case Full(m) => Full(m + 1)
  }

  // ---------------------------------------------------------------- the baseline of a truthful database

  lemma {:induction false} TrueRun(found: seq<bool>, n: nat)
    requires n <= |found| && forall i :: 0 <= i < |found| ==> (found[i] <==> i < n)
    ensures LeadingRun(found) == n && FirstFrom(found, n) == |found|
  {
    var r := LeadingRun(found);
    assert r < |found| ==> !found[r];
    assert n < |found| ==> !found[n];
  }

  lemma LegacyBaseline<S>(env: Env<S>, line: seq<Migration>, s0: S, k: nat, start: Db<S>)
    requires Legacy(env, line, s0, k, start) && 1 <= k <= LAST_FINGERPRINT
    ensures Decide(env, line, start.schema) == Record(LegacyChecks()[..if k < REPLAY_SAFE then k else k - 1])
  {
    var n := if k < REPLAY_SAFE then k else k - 1;
    var found := Found(env, start.schema);
    forall i | 0 <= i < 40 ensures found[i] <==> i < n {
      assert LegacyChecks()[i] in LegacyChecks();
    }
    TrueRun(found, n);
  }

  lemma ChecksUpTo(line: seq<Migration>, n: nat)
    requires 1 <= n <= 40 && LegacyChecks()[n - 1] <= |line|
    ensures Records(BaselineRows(line, LegacyChecks()[..n]), LegacyChecks()[n - 1], false)
    ensures RowsFit(line, BaselineRows(line, LegacyChecks()[..n]))
  {
    var rows := BaselineRows(line, LegacyChecks()[..n]);
    forall v ensures v in rows <==> 1 <= v <= LegacyChecks()[n - 1] && v != REPLAY_SAFE {
      if 1 <= v <= LegacyChecks()[n - 1] && v != REPLAY_SAFE {
        var i := if v < REPLAY_SAFE then v - 1 else v - 2;
        assert LegacyChecks()[..n][i] == v;
      }
    }
  }

  lemma BaselineStage<S>(env: Env<S>, line: seq<Migration>, s0: S, k: nat, db: Db<S>)
    requires Embedded(line) && Legacy(env, line, s0, k, db) && 1 <= k <= LAST_FINGERPRINT
    ensures Step(env, line, db).Some? && At(env, line, s0, k, Step(env, line, db).value, NextStage(k, Untouched))
  {
    LegacyBaseline(env, line, s0, k, db);
    StepIsBaseline(env, line, db);
    ChecksUpTo(line, if k < REPLAY_SAFE then k else k - 1);
  }

  // ---------------------------------------------------------------- the other steps

  lemma GappedStep<S>(env: Env<S>, line: seq<Migration>, s0: S, k: nat, start: Db<S>, db: Db<S>)
    requires Embedded(line) && Legacy(env, line, s0, k, start)
    requires At(env, line, s0, k, db, Gapped)
    ensures Step(env, line, db) ==
              Some(Db(db.schema, db.ledger[REPLAY_SAFE := Row(line[13].name, line[13].checksum, false)]))
  {
    assert 1 in db.ledger && REPLAY_SAFE !in db.ledger;
    assert Accepts(line, db.ledger);
    StepIsApply(env, line, db, 13);
    assert start.schema == db.schema;
  }

  lemma GappedStage<S>(env: Env<S>, line: seq<Migration>, s0: S, k: nat, start: Db<S>, db: Db<S>)
    requires Embedded(line) && Legacy(env, line, s0, k, start)
    requires At(env, line, s0, k, db, Gapped)
    ensures Step(env, line, db).Some? && At(env, line, s0, k, Step(env, line, db).value, Full(k))
  {
    GappedStep(env, line, s0, k, start, db);
    var row := Row(line[13].name, line[13].checksum, false);
    assert RowFits(line, REPLAY_SAFE, row);
    assert Records(db.ledger[REPLAY_SAFE := row], k, true);
  }

  lemma FullStep<S>(env: Env<S>, line: seq<Migration>, s0: S, k: nat, db: Db<S>, m: nat)
    requires Embedded(line) && k <= |line| && At(env, line, s0, k, db, Full(m)) && m < |line|
    ensures Step(env, line, db) == Apply(env, line[m], db)
    ensures m + 1 !in db.ledger
  {
    assert 1 in db.ledger;
    assert Accepts(line, db.ledger);
    StepIsApply(env, line, db, m);
  }

  /** The next script runs on the effect of what came before; the replay of 14 changes nothing. */
  lemma FullEffect<S>(env: Env<S>, line: seq<Migration>, s0: S, k: nat, start: Db<S>, schema: S, m: nat)
    requires Legacy(env, line, s0, k, start) && m < |line|
    requires m >= k || (k == REPLAY_SAFE && m + 1 == k)
    requires After(env, line, s0, Max(m, k)) == Some(schema)
    ensures env.run(line[m], schema) == After(env, line, s0, Max(m + 1, k))
  {
    if m < k {
      assert schema == start.schema;
    } else {
      assert Max(m, k) == m && Max(m + 1, k) == m + 1;
    }
  }

  lemma RecordedNext(line: seq<Migration>, ledger: Ledger, m: nat)
    requires Embedded(line) && m < |line| && RowsFit(line, ledger) && Records(ledger, m, true)
    ensures var next := ledger[m + 1 := Row(line[m].name, line[m].checksum, false)];
            RowsFit(line, next) && Records(next, m + 1, true)
  {}

  lemma FullStage<S>(env: Env<S>, line: seq<Migration>, s0: S, k: nat, start: Db<S>, db: Db<S>, m: nat)
    requires Embedded(line) && Legacy(env, line, s0, k, start)
    requires At(env, line, s0, k, db, Full(m)) && m < |line|
    ensures Step(env, line, db).None? <==> env.run(line[m], db.schema).None?
    ensures Step(env, line, db).Some? ==> At(env, line, s0, k, Step(env, line, db).value, Full(m + 1))
    ensures env.run(line[m], db.schema) == After(env, line, s0, Max(m + 1, k))
  {
    FullStep(env, line, s0, k, db, m);
    FullEffect(env, line, s0, k, start, db.schema, m);
    RecordedNext(line, db.ledger, m);
  }

  lemma FreshStage<S>(env: Env<S>, line: seq<Migration>, s0: S, db: Db<S>)
    requires Embedded(line) && |line| > 0 && Legacy(env, line, s0, 0, db)
    ensures Step(env, line, db) == Apply(env, line[0], db)
    ensures Step(env, line, db).None? <==> env.run(line[0], s0).None?
    ensures Step(env, line, db).Some? ==> At(env, line, s0, 0, Step(env, line, db).value, Full(1))
  {
    StepIsApply(env, line, db, 0);
    var row := Row(line[0].name, line[0].checksum, false);
    assert RowFits(line, 1, row);
    assert Records(db.ledger[1 := row], 1, true);
    assert After(env, line, s0, 1) == env.run(line[0], s0);
  }

  lemma UntouchedStage<S>(env: Env<S>, line: seq<Migration>, s0: S, k: nat, db: Db<S>)
    requires Embedded(line) && |line| > 0 && Legacy(env, line, s0, k, db) && k <= LAST_FINGERPRINT
    ensures Step(env, line, db).Some? ==> At(env, line, s0, k, Step(env, line, db).value, NextStage(k, Untouched))
    ensures Step(env, line, db).None? ==> After(env, line, s0, 1).None?
  {
    if k == 0 {
      FreshStage(env, line, s0, db);
      assert After(env, line, s0, 0) == Some(s0);
    } else {
      BaselineStage(env, line, s0, k, db);
    }
  }

  /** One step from any stage: the next stage is reached, and the step is missing only at the end
      of the line or where the fresh install would also fail. */
  lemma StageStep<S>(env: Env<S>, line: seq<Migration>, s0: S, k: nat, start: Db<S>, db: Db<S>, stage: Stage)
    requires Embedded(line) && |line| > 0 && Legacy(env, line, s0, k, start) && k <= LAST_FINGERPRINT
    requires At(env, line, s0, k, db, stage)
    ensures Step(env, line, db).Some? ==> At(env, line, s0, k, Step(env, line, db).value, NextStage(k, stage))
    ensures Step(env, line, db).None? ==>
              stage == Full(|line|) || exists n: nat :: n <= |line| && After(env, line, s0, n).None?
  {
    match stage
    case Untouched =>
      assert db == start;
      UntouchedStage(env, line, s0, k, db);
    case Gapped =>
      GappedStage(env, line, s0, k, start, db);
    case Full(m) =>
      if m < |line| {
        FullStage(env, line, s0, k, start, db, m);
        assert Max(m + 1, k) <= |line|;
      } else {
        assert Exact(line, db.ledger);
        ExactHasNoStep(env, line, db);
      }
  }

  lemma {:induction false} StageAlong<S(!new)>(env: Env<S>, line: seq<Migration>, s0: S, k: nat, start: Db<S>,
                                               a: Db<S>, stage: Stage, b: Db<S>, n: nat)
      returns (end: Stage)
    requires Embedded(line) && |line| > 0 && Legacy(env, line, s0, k, start) && k <= LAST_FINGERPRINT
    requires At(env, line, s0, k, a, stage) && Reaches(Next(env, line), a, b, n)
    ensures At(env, line, s0, k, b, end)
    ensures stage != Untouched ==> end != Untouched
    ensures n > 0 ==> end != Untouched
    decreases n
  {
    end := stage;
    if n > 0 {
      StageStep(env, line, s0, k, start, a, stage);
      end := StageAlong(env, line, s0, k, start, Step(env, line, a).value, NextStage(k, stage), b, n - 1);
    }
  }

  // ---------------------------------------------------------------- main results

  /** The versions recorded: 1 to n, or 1 to n without 14. */
  ghost predicate WellRecorded(ledger: Ledger) {
    exists n: nat, with14: bool :: Records(ledger, n, with14)
  }

  /** The schema is the effect of 1 to n in order, each once, for some n. */
  ghost predicate IsAfter<S>(env: Env<S>, line: seq<Migration>, s0: S, schema: S, n: nat) {
    n <= |line| && After(env, line, s0, n) == Some(schema)
  }

  /** Every recorded version has its effect in the schema, and no effect above both the recorded
      versions and the legacy level is there: the schema is the effect of 1 to max(top, k). */
  ghost predicate EffectsRecorded<S>(env: Env<S>, line: seq<Migration>, s0: S, k: nat, db: Db<S>) {
    exists n: nat :: k <= n && IsAfter(env, line, s0, db.schema, n) && (forall v :: v in db.ledger ==> v <= n) &&
      (n <= k || n in db.ledger)
  }

  lemma StageFacts<S>(env: Env<S>, line: seq<Migration>, s0: S, k: nat, db: Db<S>, stage: Stage)
    requires k <= |line| && At(env, line, s0, k, db, stage)
    ensures WellRecorded(db.ledger) && NoGap(db.ledger) && EffectsRecorded(env, line, s0, k, db)
  {
    match stage
    case Untouched =>
      assert Records(db.ledger, 0, true);
      assert IsAfter(env, line, s0, db.schema, k);
    case Gapped =>
      assert Records(db.ledger, k, false);
      assert IsAfter(env, line, s0, db.schema, k);
    case Full(m) =>
      assert Records(db.ledger, m, true);
      assert IsAfter(env, line, s0, db.schema, Max(m, k));
  }

  /** Ledger safety, over all runs of all instances from a fresh or legacy database: the recorded
      versions are 1..n or 1..n without 14; recorded versions have their effects and no effect is
      unrecorded beyond the legacy level; and a binary refuses the history exactly when it holds a
      version the binary does not know. */
  lemma LedgerSafety<S(!new)>(env: Env<S>, line: seq<Migration>, s0: S, k: nat, run: seq<World<S>>, binary: nat)
    requires Embedded(line) && |line| > 0 && Run(env, line, run) && Safe(env, line, run[0])
    requires Legacy(env, line, s0, k, run[0].db) && k <= LAST_FINGERPRINT && binary <= |line|
    ensures var db := run[|run| - 1].db;
            WellRecorded(db.ledger) && EffectsRecorded(env, line, s0, k, db) &&
            (Accepts(line[..binary], db.ledger) <==> forall v :: v in db.ledger ==> v <= binary)
  {
    RunIsSafe(env, line, run);
    var start, db := run[0].db, run[|run| - 1].db;
    var n: nat :| Reaches(Next(env, line), start, db, n);
    var end := StageAlong(env, line, s0, k, start, start, Untouched, db, n);
    StageFacts(env, line, s0, k, db, end);
    PrefixAccepts(line, binary, db.ledger);
  }

  /** A database that only the manager ever touched is never baselined: its ledger is empty only
      before the first migration, and then there is no application schema. */
  lemma FreshIsNeverBaselined<S(!new)>(env: Env<S>, line: seq<Migration>, s0: S, run: seq<World<S>>, binary: nat)
    requires Embedded(line) && |line| > 0 && Run(env, line, run) && Safe(env, line, run[0])
    requires Legacy(env, line, s0, 0, run[0].db) && binary <= |line|
    ensures var db := run[|run| - 1].db;
            db.ledger == map[] ==> db.schema == s0 && Decide(env, line[..binary], db.schema) == Fresh
  {
    RunIsSafe(env, line, run);
    var start, db := run[0].db, run[|run| - 1].db;
    var n: nat :| Reaches(Next(env, line), start, db, n);
    var end := StageAlong(env, line, s0, 0, start, start, Untouched, db, n);
    assert end.Full? ==> 1 in db.ledger;
  }

  /** A start-up that goes to the end of its chain ends current, with the schema of a fresh install
      of the whole line, whenever that fresh install itself succeeds. */
  lemma Converges<S(!new)>(env: Env<S>, line: seq<Migration>, s0: S, k: nat, start: Db<S>, end: Db<S>)
    requires Embedded(line) && |line| > 0 && Legacy(env, line, s0, k, start) && k <= LAST_FINGERPRINT
    requires Leads(Next(env, line), start, end)
    requires forall n: nat :: n <= |line| ==> After(env, line, s0, n).Some?
    ensures Step(env, line, end).None? <==> Exact(line, end.ledger)
    ensures Exact(line, end.ledger) ==> After(env, line, s0, |line|) == Some(end.schema)
  {
    var n: nat :| Reaches(Next(env, line), start, end, n);
    var stage := StageAlong(env, line, s0, k, start, start, Untouched, end, n);
    StageStep(env, line, s0, k, start, end, stage);
    if Exact(line, end.ledger) {
      ExactHasNoStep(env, line, end);
    }
    if stage == Full(|line|) {
      assert Exact(line, end.ledger);
    }
  }

  /** Upgrading a legacy database over a reliable connection: it succeeds and the schema is that of
      a fresh install. */
  method Upgrade<S(!new)>(db: Database<S>, env: Env<S>, line: seq<Migration>, ghost s0: S, ghost k: nat)
      returns (result: Result, outcome: Outcome)
    requires Embedded(line) && |line| > 0 && Legacy(env, line, s0, k, db.State()) && k <= LAST_FINGERPRINT
    requires forall n: nat :: n <= |line| ==> After(env, line, s0, n).Some?
    modifies db
    ensures outcome == Done && Exact(line, db.ledger) && After(env, line, s0, |line|) == Some(db.schema)
    ensures forall v :: 1 <= v <= |line| ==> (v in result.appliedNow <==> v !in result.baselined)
  {
    ghost var start := db.State();
    result, outcome := Migrate(db, env, line, true);
    Converges(env, line, s0, k, start, db.State());
  }

  /** The next step runs 0042, and ends with the fresh schema exactly when that changes nothing. */
  ghost predicate RerunsLast<S>(env: Env<S>, line: seq<Migration>, s0: S, start: Db<S>, db: Db<S>)
    requires Embedded(line) && |line| == LAST_FINGERPRINT + 1
  {
    Step(env, line, db) == Apply(env, line[LAST_FINGERPRINT], db) &&
    ((Step(env, line, db).Some? && After(env, line, s0, |line|) == Some(Step(env, line, db).value.schema)) <==>
     env.run(line[LAST_FINGERPRINT], start.schema) == Some(start.schema))
  }

  /** The database of the last release before the manager had 42 migrations but 41 fingerprints.
      From there the third step runs 0042 a second time, on a schema that already has it, so the
      upgrade ends with the fresh schema exactly when 0042 too may be run again. */
  lemma UnfingerprintedRunsAgain<S(!new)>(env: Env<S>, line: seq<Migration>, s0: S, start: Db<S>)
    requires Embedded(line) && |line| == LAST_FINGERPRINT + 1 && Legacy(env, line, s0, LAST_FINGERPRINT + 1, start)
    ensures exists db ::
              Reaches(Next(env, line), start, db, 2) && db.schema == start.schema &&
              Records(db.ledger, LAST_FINGERPRINT, true) && RerunsLast(env, line, s0, start, db)
  {
    var next := Next(env, line);
    AllFingerprints(env, start.schema);
    StepIsBaseline(env, line, start);
    var gapped := Step(env, line, start).value;
    ChecksUpTo(line, 40);
    AllBut42(env, line, gapped, start.schema);
    var db := Step(env, line, gapped).value;
    assert Reaches(next, db, db, 0);
    assert Reaches(next, gapped, db, 1);
    assert Reaches(next, start, db, 2);
    assert 1 in db.ledger && Accepts(line, db.ledger);
    StepIsApply(env, line, db, LAST_FINGERPRINT);
  }

  lemma AllFingerprints<S>(env: Env<S>, schema: S)
    requires forall v :: v in LegacyChecks() ==> env.fingerprint(v, schema)
    ensures LeadingRun(Found(env, schema)) == 40 && FirstFrom(Found(env, schema), 40) == 40
  {
    forall i | 0 <= i < 40 ensures Found(env, schema)[i] {
      assert LegacyChecks()[i] in LegacyChecks();
    }
    TrueRun(Found(env, schema), 40);
  }

  lemma AllBut42<S>(env: Env<S>, line: seq<Migration>, gapped: Db<S>, schema: S)
    requires Embedded(line) && |line| == LAST_FINGERPRINT + 1
    requires gapped.schema == schema && RowsFit(line, gapped.ledger) && Records(gapped.ledger, LAST_FINGERPRINT, false)
    requires env.run(line[REPLAY_SAFE - 1], schema) == Some(schema)
    ensures Step(env, line, gapped).Some? && Step(env, line, gapped).value.schema == schema
    ensures Records(Step(env, line, gapped).value.ledger, LAST_FINGERPRINT, true) &&
            RowsFit(line, Step(env, line, gapped).value.ledger)
  {
    assert 1 in gapped.ledger && REPLAY_SAFE !in gapped.ledger && Accepts(line, gapped.ledger);
    StepIsApply(env, line, gapped, 13);
    var row := Row(line[13].name, line[13].checksum, false);
    assert RowFits(line, REPLAY_SAFE, row);
    assert Records(gapped.ledger[REPLAY_SAFE := row], LAST_FINGERPRINT, true);
  }
}
