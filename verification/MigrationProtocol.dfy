/** Several instances of several binaries starting against one database, in any interleaving, with
    a crash possible between any two statements. All binaries embed a prefix of one release line. */
module MigrationProtocol {
  import opened Text
  import opened Chains
  import opened MigrationModel
  import opened MigrationManager

  /** Where an instance stands in its start-up. `Read` and `Applying` hold what the instance has in
      memory, not what the database holds. */
  datatype Phase =
    | Idle
    | Waiting
    | Locked
    | Read(applied: Ledger)
    | Baselining(versions: seq<int>)
    | Applying(turn: nat, known: set<int>)
    | Current
    | Failed

  datatype Instance = Instance(binary: nat, phase: Phase)

  datatype World<S> = World(db: Db<S>, lock: Option<nat>, instances: seq<Instance>)

  predicate Holding(phase: Phase) {
    !phase.Idle? && !phase.Waiting?
  }

  function Turned<S>(w: World<S>, i: nat, phase: Phase): World<S>
    requires i < |w.instances|
  {
    w.(instances := w.instances[i := w.instances[i].(phase := phase)])
  }

  // ---------------------------------------------------------------- moves of one instance

  ghost predicate Start<S>(line: seq<Migration>, w: World<S>, i: nat, w': World<S>)
    requires i < |w.instances|
  {
    w.instances[i].phase.Idle? &&
    exists n: nat :: 1 <= n <= |line| && w' == w.(instances := w.instances[i := Instance(n, Waiting)])
  }

  ghost predicate Acquire<S>(w: World<S>, i: nat, w': World<S>)
    requires i < |w.instances|
  {
    w.instances[i].phase.Waiting? && w.lock == None && w' == Turned(w, i, Locked).(lock := Some(i))
  }

  ghost predicate ReadLedger<S>(w: World<S>, i: nat, w': World<S>)
    requires i < |w.instances|
  {
    w.instances[i].phase.Locked? && w' == Turned(w, i, Read(w.db.ledger))
  }

  /** Fingerprints of a database whose ledger was read empty. */
  ghost predicate Inspect<S>(env: Env<S>, line: seq<Migration>, w: World<S>, i: nat, w': World<S>)
    requires i < |w.instances| && w.instances[i].binary <= |line|
  {
    var migs := line[..w.instances[i].binary];
    w.instances[i].phase == Read(map[]) &&
    match Decide(env, migs, w.db.schema)
    case Fresh => w' == Turned(w, i, Applying(0, {}))
    case Record(versions) => w' == Turned(w, i, Baselining(versions))
    case Refused(_) => w' == Turned(w, i, Failed)
  }

  /** The baseline transaction: existing rows win over its own. */
  ghost predicate CommitBaseline<S>(line: seq<Migration>, w: World<S>, i: nat, w': World<S>)
    requires i < |w.instances| && w.instances[i].binary <= |line|
  {
    w.instances[i].phase.Baselining? &&
    var rows := BaselineRows(line[..w.instances[i].binary], w.instances[i].phase.versions);
    w' == Turned(w, i, Locked).(db := Db(w.db.schema, rows + w.db.ledger))
  }

  ghost predicate Validate<S>(line: seq<Migration>, w: World<S>, i: nat, w': World<S>)
    requires i < |w.instances| && w.instances[i].binary <= |line|
  {
    var migs := line[..w.instances[i].binary];
    w.instances[i].phase.Read? && w.instances[i].phase.applied != map[] &&
    var applied := w.instances[i].phase.applied;
    w' == Turned(w, i, if Accepts(migs, applied) then Applying(0, applied.Keys) else Failed)
  }

  ghost predicate ApplyTurn<S>(env: Env<S>, line: seq<Migration>, w: World<S>, i: nat, w': World<S>)
    requires i < |w.instances| && w.instances[i].binary <= |line|
  {
    var phase := w.instances[i].phase;
    phase.Applying? && phase.turn < w.instances[i].binary &&
    if phase.turn + 1 in phase.known then w' == Turned(w, i, Applying(phase.turn + 1, phase.known))
    else
      match Apply(env, line[phase.turn], w.db)
      case Some(db) => w' == Turned(w, i, Applying(phase.turn + 1, phase.known)).(db := db)
      case None => w' == Turned(w, i, Failed)
  }

  ghost predicate Verify<S>(w: World<S>, i: nat, w': World<S>)
    requires i < |w.instances|
  {
    w.instances[i].phase.Applying? && w.instances[i].phase.turn == w.instances[i].binary &&
    w' == Turned(w, i, if |w.db.ledger| == w.instances[i].binary then Current else Failed)
  }

  /** Unlocking at the end, or losing the session at any point: an open transaction is rolled back
      and the advisory lock goes with the session. */
  ghost predicate LeaveOrCrash<S>(w: World<S>, i: nat, w': World<S>)
    requires i < |w.instances|
  {
    w' == Turned(w, i, Idle).(lock := if w.lock == Some(i) then None else w.lock)
  }

  ghost predicate Moves<S>(env: Env<S>, line: seq<Migration>, w: World<S>, i: nat, w': World<S>) {
    i < |w.instances| && w.instances[i].binary <= |line| &&
    (|| Start(line, w, i, w')
     || Acquire(w, i, w')
     || ReadLedger(w, i, w')
     || Inspect(env, line, w, i, w')
     || CommitBaseline(line, w, i, w')
     || Validate(line, w, i, w')
     || ApplyTurn(env, line, w, i, w')
     || Verify(w, i, w')
     || LeaveOrCrash(w, i, w'))
  }

  /** A run: every world follows from the one before by a move of some instance. */
  ghost predicate Run<S>(env: Env<S>, line: seq<Migration>, run: seq<World<S>>) {
    |run| > 0 && forall t :: 0 <= t < |run| - 1 ==> Follows(env, line, run[t], run[t + 1])
  }

  ghost predicate Follows<S>(env: Env<S>, line: seq<Migration>, w: World<S>, w': World<S>) {
    exists i: nat :: Moves(env, line, w, i, w')
  }

  // ---------------------------------------------------------------- invariant

  /** What an instance that holds the lock has in memory agrees with the database. */
  ghost predicate InStep<S>(env: Env<S>, line: seq<Migration>, db: Db<S>, it: Instance)
    requires it.binary <= |line|
  {
    var migs := line[..it.binary];
    match it.phase
    case Read(applied) => applied == db.ledger
    case Baselining(versions) => db.ledger == map[] && Decide(env, migs, db.schema) == Record(versions)
    case Applying(turn, known) =>
      turn <= it.binary && Accepts(migs, db.ledger) && PastBootstrap(env, migs, db) &&
      Progressed(known, db.ledger, turn)
    case Current => Exact(migs, db.ledger)
    case _ => true
  }

  /** Mutual exclusion, and the holder of the lock is in step with the database. */
  ghost predicate Safe<S>(env: Env<S>, line: seq<Migration>, w: World<S>) {
    (forall i :: 0 <= i < |w.instances| ==> w.instances[i].binary <= |line|) &&
    (forall i :: 0 <= i < |w.instances| ==> (Holding(w.instances[i].phase) <==> w.lock == Some(i))) &&
    (forall i :: 0 <= i < |w.instances| && w.lock == Some(i) ==> InStep(env, line, w.db, w.instances[i]))
  }

  lemma EmbeddedPrefix(line: seq<Migration>, n: nat)
    requires Embedded(line) && n <= |line|
    ensures Embedded(line[..n])
  {
    forall i | 0 <= i < n ensures line[..n][i] == line[i] {}
  }

  /** A move that only the lock holder can make keeps the world safe when the holder stays in step. */
  lemma HolderMoved<S>(env: Env<S>, line: seq<Migration>, w: World<S>, i: nat, db: Db<S>, phase: Phase)
    requires Safe(env, line, w) && i < |w.instances| && Holding(w.instances[i].phase) && Holding(phase)
    requires InStep(env, line, db, w.instances[i].(phase := phase))
    ensures Safe(env, line, Turned(w, i, phase).(db := db))
  {
    var w' := Turned(w, i, phase).(db := db);
    forall j | 0 <= j < |w'.instances| ensures Holding(w'.instances[j].phase) <==> w'.lock == Some(j) {
      assert j != i ==> w'.instances[j] == w.instances[j];
    }
  }

  /** What a move does to the database: nothing, or the one step its binary would take. */
  ghost predicate TakesStep<S>(env: Env<S>, line: seq<Migration>, binary: nat, db: Db<S>, db': Db<S>)
    requires Embedded(line) && binary <= |line|
  {
    EmbeddedPrefix(line, binary);
    db' == db || Step(env, line[..binary], db) == Some(db')
  }

  lemma ReadIsSafe<S>(env: Env<S>, line: seq<Migration>, w: World<S>, i: nat, w': World<S>)
    requires Safe(env, line, w) && i < |w.instances| && (ReadLedger(w, i, w') || Validate(line, w, i, w'))
    ensures Safe(env, line, w') && w'.db == w.db
  {
    var phase := w'.instances[i].phase;
    if Validate(line, w, i, w') && phase.Applying? {
      assert w.db.ledger == w.instances[i].phase.applied;
      assert Progressed(w.db.ledger.Keys, w.db.ledger, 0);
    }
    HolderMoved(env, line, w, i, w.db, phase);
    assert Turned(w, i, phase).(db := w.db) == w';
  }

  lemma InspectIsSafe<S>(env: Env<S>, line: seq<Migration>, w: World<S>, i: nat, w': World<S>)
    requires Safe(env, line, w) && i < |w.instances| && w.instances[i].binary <= |line| && Inspect(env, line, w, i, w')
    ensures Safe(env, line, w') && w'.db == w.db
  {
    var phase := w'.instances[i].phase;
    assert w.db.ledger == map[];
    assert InStep(env, line, w.db, w.instances[i].(phase := phase)) by {
      assert Accepts(line[..w.instances[i].binary], w.db.ledger);
      assert Progressed({}, w.db.ledger, 0);
    }
    HolderMoved(env, line, w, i, w.db, phase);
    assert Turned(w, i, phase).(db := w.db) == w';
  }

  lemma BaselineIsSafe<S>(env: Env<S>, line: seq<Migration>, w: World<S>, i: nat, w': World<S>)
    requires Embedded(line)
    requires Safe(env, line, w) && i < |w.instances| && w.instances[i].binary <= |line| &&
             CommitBaseline(line, w, i, w')
    ensures Safe(env, line, w') && TakesStep(env, line, w.instances[i].binary, w.db, w'.db)
  {
    var it := w.instances[i];
    assert InStep(env, line, w.db, it);
    BaselineOnEmpty(BaselineRows(line[..it.binary], it.phase.versions), w.db.ledger);
    BaselineStep(env, line, it.binary, w.db, it.phase.versions);
    HolderMoved(env, line, w, i, w'.db, Locked);
  }

  lemma BaselineOnEmpty(rows: Ledger, ledger: Ledger)
    requires ledger == map[]
    ensures rows + ledger == rows
  {}

  lemma BaselineStep<S>(env: Env<S>, line: seq<Migration>, n: nat, db: Db<S>, versions: seq<int>)
    requires Embedded(line) && n <= |line|
    requires db.ledger == map[] && Decide(env, line[..n], db.schema) == Record(versions)
    ensures TakesStep(env, line, n, db, Db(db.schema, BaselineRows(line[..n], versions)))
  {
    EmbeddedPrefix(line, n);
    StepIsBaseline(env, line[..n], db);
  }

  /** A turn of the loop whose transaction committed. */
  lemma TurnCommitted<S>(env: Env<S>, line: seq<Migration>, n: nat, db: Db<S>, turn: nat, known: set<int>, db': Db<S>)
    requires Embedded(line) && n <= |line| && turn < n && turn + 1 !in known
    requires InStep(env, line, db, Instance(n, Applying(turn, known))) && Apply(env, line[turn], db) == Some(db')
    ensures InStep(env, line, db', Instance(n, Applying(turn + 1, known))) && TakesStep(env, line, n, db, db')
  {
    var migs := line[..n];
    EmbeddedPrefix(line, n);
    assert migs[turn] == line[turn];
    StepIsApply(env, migs, db, turn);
    ApplyKeepsAccepted(env, migs, db, turn);
    ProgressedOne(known, db.ledger, turn, Row(migs[turn].name, migs[turn].checksum, false));
  }

  lemma ApplyIsSafe<S>(env: Env<S>, line: seq<Migration>, w: World<S>, i: nat, w': World<S>)
    requires Embedded(line)
    requires Safe(env, line, w) && i < |w.instances| && w.instances[i].binary <= |line| &&
             ApplyTurn(env, line, w, i, w')
    ensures Safe(env, line, w') && TakesStep(env, line, w.instances[i].binary, w.db, w'.db)
  {
    var it := w.instances[i];
    EmbeddedPrefix(line, it.binary);
    var turn, known := it.phase.turn, it.phase.known;
    var phase := w'.instances[i].phase;
    assert InStep(env, line, w.db, it) && it == Instance(it.binary, Applying(turn, known));
    if turn + 1 in known {
      ProgressedSkip(known, w.db.ledger, turn);
    } else if Apply(env, line[turn], w.db).Some? {
      TurnCommitted(env, line, it.binary, w.db, turn, known, w'.db);
    }
    HolderMoved(env, line, w, i, w'.db, phase);
    assert Turned(w, i, phase).(db := w'.db) == w';
  }

  lemma VerifyIsSafe<S>(env: Env<S>, line: seq<Migration>, w: World<S>, i: nat, w': World<S>)
    requires Safe(env, line, w) && i < |w.instances| && w.instances[i].binary <= |line| && Verify(w, i, w')
    ensures Safe(env, line, w') && w'.db == w.db
  {
    var it := w.instances[i];
    ExactWhenThrough(line[..it.binary], it.phase.known, w.db.ledger);
    HolderMoved(env, line, w, i, w.db, w'.instances[i].phase);
    assert Turned(w, i, w'.instances[i].phase).(db := w.db) == w';
  }

  lemma LockIsSafe<S>(env: Env<S>, line: seq<Migration>, w: World<S>, i: nat, w': World<S>)
    requires Safe(env, line, w) && i < |w.instances|
    requires Start(line, w, i, w') || Acquire(w, i, w') || LeaveOrCrash(w, i, w')
    ensures Safe(env, line, w') && w'.db == w.db
  {
    forall j | 0 <= j < |w'.instances|
      ensures w'.instances[j].binary <= |line| && (Holding(w'.instances[j].phase) <==> w'.lock == Some(j))
    {
      assert j != i ==> w'.instances[j] == w.instances[j];
    }
    forall j | 0 <= j < |w'.instances| && w'.lock == Some(j) ensures InStep(env, line, w'.db, w'.instances[j]) {
      assert j != i ==> w'.instances[j] == w.instances[j];
    }
  }

  /** Every move of every instance keeps the world safe and is invisible in the database or is
      exactly the next step of the mover's binary. */
  lemma MoveIsSafe<S>(env: Env<S>, line: seq<Migration>, w: World<S>, i: nat, w': World<S>)
    requires Embedded(line) && Safe(env, line, w) && Moves(env, line, w, i, w')
    ensures Safe(env, line, w') && TakesStep(env, line, w.instances[i].binary, w.db, w'.db)
  {
    if Start(line, w, i, w') || Acquire(w, i, w') || LeaveOrCrash(w, i, w') {
      LockIsSafe(env, line, w, i, w');
    } else if ReadLedger(w, i, w') || Validate(line, w, i, w') {
      ReadIsSafe(env, line, w, i, w');
    } else if Inspect(env, line, w, i, w') {
      InspectIsSafe(env, line, w, i, w');
    } else if CommitBaseline(line, w, i, w') {
      BaselineIsSafe(env, line, w, i, w');
    } else if ApplyTurn(env, line, w, i, w') {
      ApplyIsSafe(env, line, w, i, w');
    } else {
      VerifyIsSafe(env, line, w, i, w');
    }
  }

  // ---------------------------------------------------------------- one chain for all binaries

  lemma PrefixDecides<S>(env: Env<S>, line: seq<Migration>, n: nat, schema: S)
    requires Embedded(line) && n <= |line|
    ensures Decide(env, line[..n], schema).Fresh? <==> Decide(env, line, schema).Fresh?
    ensures Decide(env, line[..n], schema).Record? ==> Decide(env, line, schema) == Decide(env, line[..n], schema)
    ensures Decide(env, line[..n], schema).Record? ==>
              var versions := Decide(env, line, schema).versions;
              BaselineRows(line[..n], versions) == BaselineRows(line, versions)
  {
    if Decide(env, line[..n], schema).Record? {
      var run := LeadingRun(Found(env, schema));
      var versions := LegacyChecks()[..run];
      forall v | v in versions ensures 1 <= v <= n && line[..n][v - 1] == line[v - 1] {}
    }
  }

  lemma PrefixAccepts(line: seq<Migration>, n: nat, ledger: Ledger)
    requires n <= |line|
    ensures Accepts(line[..n], ledger) <==> Accepts(line, ledger) && forall v :: v in ledger ==> v <= n
  {
    forall v | v in ledger && v <= n ensures RowFits(line[..n], v, ledger[v]) <==> RowFits(line, v, ledger[v]) {
      assert 1 <= v ==> line[..n][v - 1] == line[v - 1];
    }
    if RowsFit(line[..n], ledger) {
      assert forall v :: v in ledger ==> RowFits(line[..n], v, ledger[v]);
    }
    if RowsFit(line, ledger) && forall v :: v in ledger ==> v <= n {
      assert forall v :: v in ledger ==> RowFits(line, v, ledger[v]);
    }
  }

  lemma StepWasApply<S>(env: Env<S>, migs: seq<Migration>, db: Db<S>)
    requires Embedded(migs) && Step(env, migs, db).Some? && PastBootstrap(env, migs, db)
    ensures Accepts(migs, db.ledger)
    ensures var v := FirstMissing(|migs|, db.ledger, 1);
            v <= |migs| && Step(env, migs, db) == Apply(env, migs[v - 1], db)
  {}

  /** Wherever an older binary takes a step, every newer one takes the same. */
  lemma PrefixSteps<S>(env: Env<S>, line: seq<Migration>, n: nat, db: Db<S>)
    requires Embedded(line) && n <= |line| && Embedded(line[..n])
    requires Step(env, line[..n], db).Some?
    ensures Step(env, line, db) == Step(env, line[..n], db)
  {
    PrefixDecides(env, line, n, db.schema);
    if PastBootstrap(env, line[..n], db) {
      StepWasApply(env, line[..n], db);
      var v := FirstMissing(n, db.ledger, 1);
      PrefixAccepts(line, n, db.ledger);
      assert line[..n][v - 1] == line[v - 1];
      StepIsApply(env, line, db, v - 1);
    } else {
      BootstrapsAlike(env, line, n, db);
    }
  }

  lemma BootstrapsAlike<S>(env: Env<S>, line: seq<Migration>, n: nat, db: Db<S>)
    requires Embedded(line) && n <= |line| && Embedded(line[..n])
    requires Step(env, line[..n], db).Some? && !PastBootstrap(env, line[..n], db)
    ensures Step(env, line, db) == Step(env, line[..n], db)
  {
    PrefixDecides(env, line, n, db.schema);
    StepIsBaseline(env, line[..n], db);
    StepIsBaseline(env, line, db);
  }

  /** Safety over all runs: with any number of instances, binaries and crashes, the database has
      only moved along the one chain of the release line, and at most one instance holds the lock. */
  lemma {:induction false} RunIsSafe<S(!new)>(env: Env<S>, line: seq<Migration>, run: seq<World<S>>)
    requires Embedded(line) && Run(env, line, run) && Safe(env, line, run[0])
    ensures Safe(env, line, run[|run| - 1])
    ensures Leads(Next(env, line), run[0].db, run[|run| - 1].db)
  {
    if |run| == 1 {
      LeadsSelf(Next(env, line), run[0].db);
    } else {
      var n := |run| - 1;
      var before := run[..n];
      assert Run(env, line, before) by {
        forall t | 0 <= t < |before| - 1 ensures Follows(env, line, before[t], before[t + 1]) {
          assert Follows(env, line, run[t], run[t + 1]);
        }
      }
      RunIsSafe(env, line, before);
      var w, w' := run[n - 1], run[n];
      assert Follows(env, line, run[n - 1], run[n - 1 + 1]);
      var i: nat :| Moves(env, line, w, i, w');
      MoveIsSafe(env, line, w, i, w');
      OneStepLeads(env, line, w.instances[i].binary, run[0].db, w.db, w'.db);
    }
  }

  lemma OneStepLeads<S(!new)>(env: Env<S>, line: seq<Migration>, binary: nat, start: Db<S>, db: Db<S>, db': Db<S>)
    requires Embedded(line) && binary <= |line|
    requires Leads(Next(env, line), start, db) && TakesStep(env, line, binary, db, db')
    ensures Leads(Next(env, line), start, db')
  {
    if db' != db {
      EmbeddedPrefix(line, binary);
      PrefixSteps(env, line, binary, db);
      LeadsOne(Next(env, line), start, db);
    }
  }

  /** Upgrading through any binaries gives the same database as one direct upgrade: whatever two
      runs from the same database did, if both ended current they ended with the same database. */
  lemma CompletedRunsAgree<S(!new)>(env: Env<S>, line: seq<Migration>, one: seq<World<S>>, other: seq<World<S>>)
    requires Embedded(line) && |line| > 0
    requires Run(env, line, one) && Safe(env, line, one[0]) && Exact(line, one[|one| - 1].db.ledger)
    requires Run(env, line, other) && Safe(env, line, other[0]) && Exact(line, other[|other| - 1].db.ledger)
    requires one[0].db == other[0].db
    ensures one[|one| - 1].db == other[|other| - 1].db
  {
    RunIsSafe(env, line, one);
    RunIsSafe(env, line, other);
    var a, b, c := one[0].db, one[|one| - 1].db, other[|other| - 1].db;
    ExactHasNoStep(env, line, b);
    ExactHasNoStep(env, line, c);
    var n: nat :| Reaches(Next(env, line), a, b, n);
    var m: nat :| Reaches(Next(env, line), a, c, m);
    EndsAgree(Next(env, line), a, b, c, n, m);
  }

  // ---------------------------------------------------------------- every chain is some run

  /** One idle instance of the newest binary, alone with the database. */
  function Alone<S>(line: seq<Migration>, db: Db<S>): World<S> {
    At(line, db, None, Idle)
  }

  function At<S>(line: seq<Migration>, db: Db<S>, lock: Option<nat>, phase: Phase): World<S> {
    World(db, lock, [Instance(|line|, phase)])
  }

  ghost predicate Goes<S(!new)>(env: Env<S>, line: seq<Migration>, a: World<S>, b: World<S>) {
    exists run :: Run(env, line, run) && run[0] == a && run[|run| - 1] == b
  }

  lemma GoesSelf<S(!new)>(env: Env<S>, line: seq<Migration>, a: World<S>)
    ensures Goes(env, line, a, a)
  {
    assert Run(env, line, [a]);
    assert [a][0] == a;
  }

  lemma GoesOn<S(!new)>(env: Env<S>, line: seq<Migration>, a: World<S>, b: World<S>, c: World<S>)
    requires Goes(env, line, a, b) && Moves(env, line, b, 0, c)
    ensures Goes(env, line, a, c)
  {
    var run :| Run(env, line, run) && run[0] == a && run[|run| - 1] == b;
    var more := run + [c];
    forall t | 0 <= t < |more| - 1 ensures Follows(env, line, more[t], more[t + 1]) {
      if t < |run| - 1 {
        assert Follows(env, line, run[t], run[t + 1]);
      }
    }
    assert Run(env, line, more) && more[0] == a && more[|more| - 1] == c;
  }

  /** Up to the loop over the migrations, the lock is taken and the ledger is in memory. */
  lemma GoesToRead<S(!new)>(env: Env<S>, line: seq<Migration>, a: World<S>, db: Db<S>)
    requires |line| > 0 && Goes(env, line, a, Alone(line, db))
    ensures Goes(env, line, a, At(line, db, Some(0), Read(db.ledger)))
  {
    var waiting, locked := At(line, db, None, Waiting), At(line, db, Some(0), Locked);
    assert Start(line, Alone(line, db), 0, waiting);
    GoesOn(env, line, a, Alone(line, db), waiting);
    assert Acquire(waiting, 0, locked);
    GoesOn(env, line, a, waiting, locked);
    var read := At(line, db, Some(0), Read(db.ledger));
    assert ReadLedger(locked, 0, read);
    GoesOn(env, line, a, locked, read);
  }

  lemma GoesToIdle<S(!new)>(env: Env<S>, line: seq<Migration>, a: World<S>, db: Db<S>, phase: Phase)
    requires Goes(env, line, a, At(line, db, Some(0), phase))
    ensures Goes(env, line, a, Alone(line, db))
  {
    assert LeaveOrCrash(At(line, db, Some(0), phase), 0, Alone(line, db));
    GoesOn(env, line, a, At(line, db, Some(0), phase), Alone(line, db));
  }

  lemma WholeLine(line: seq<Migration>)
    ensures line[..|line|] == line
  {}

  /** The baseline step. */
  lemma GoesThroughBaseline<S(!new)>(env: Env<S>, line: seq<Migration>, a: World<S>, db: Db<S>, versions: seq<int>)
    requires |line| > 0 && Goes(env, line, a, Alone(line, db))
    requires db.ledger == map[] && Decide(env, line, db.schema) == Record(versions)
    ensures Goes(env, line, a, Alone(line, Db(db.schema, BaselineRows(line, versions))))
  {
    WholeLine(line);
    GoesToRead(env, line, a, db);
    var read, seen := At(line, db, Some(0), Read(db.ledger)), At(line, db, Some(0), Baselining(versions));
    assert Inspect(env, line, read, 0, seen);
    GoesOn(env, line, a, read, seen);
    var rows := BaselineRows(line, versions);
    BaselineOnEmpty(rows, db.ledger);
    var done := At(line, Db(db.schema, rows), Some(0), Locked);
    assert CommitBaseline(line, seen, 0, done);
    GoesOn(env, line, a, seen, done);
    GoesToIdle(env, line, a, done.db, Locked);
  }

  /** The loop passes the versions it knows. */
  lemma {:induction false} GoesToTurn<S(!new)>(env: Env<S>, line: seq<Migration>, a: World<S>, db: Db<S>, turn: nat)
    requires |line| > 0 && Goes(env, line, a, Alone(line, db)) && turn <= |line|
    requires Accepts(line, db.ledger) && PastBootstrap(env, line, db) && forall v :: 1 <= v <= turn ==> v in db.ledger
    ensures Goes(env, line, a, At(line, db, Some(0), Applying(turn, db.ledger.Keys)))
  {
    WholeLine(line);
    var here := At(line, db, Some(0), Applying(turn, db.ledger.Keys));
    if turn == 0 {
      GoesToRead(env, line, a, db);
      var read := At(line, db, Some(0), Read(db.ledger));
      if db.ledger == map[] {
        assert db.ledger.Keys == {} && here == Turned(read, 0, Applying(0, {}));
        assert Inspect(env, line, read, 0, here);
      } else {
        assert Validate(line, read, 0, here);
      }
      GoesOn(env, line, a, read, here);
    } else {
      GoesToTurn(env, line, a, db, turn - 1);
      var before := At(line, db, Some(0), Applying(turn - 1, db.ledger.Keys));
      assert ApplyTurn(env, line, before, 0, here);
      GoesOn(env, line, a, before, here);
    }
  }

  /** Whatever step is next, a lone instance can take it and be idle again. */
  lemma StepIsTaken<S(!new)>(env: Env<S>, line: seq<Migration>, a: World<S>, db: Db<S>)
    requires Embedded(line) && |line| > 0 && Goes(env, line, a, Alone(line, db)) && Step(env, line, db).Some?
    ensures Goes(env, line, a, Alone(line, Step(env, line, db).value))
  {
    if PastBootstrap(env, line, db) {
      StepWasApply(env, line, db);
      var turn := FirstMissing(|line|, db.ledger, 1) - 1;
      GoesToTurn(env, line, a, db, turn);
      var before := At(line, db, Some(0), Applying(turn, db.ledger.Keys));
      var done := At(line, Step(env, line, db).value, Some(0), Applying(turn + 1, db.ledger.Keys));
      assert ApplyTurn(env, line, before, 0, done);
      GoesOn(env, line, a, before, done);
      GoesToIdle(env, line, a, done.db, done.instances[0].phase);
    } else {
      StepIsBaseline(env, line, db);
      GoesThroughBaseline(env, line, a, db, Decide(env, line, db.schema).versions);
    }
  }

  lemma {:induction false} ChainIsTaken<S(!new)>(env: Env<S>, line: seq<Migration>, a: World<S>, db: Db<S>, end: Db<S>,
                                                 n: nat)
    requires Embedded(line) && |line| > 0 && Goes(env, line, a, Alone(line, db))
    requires Reaches(Next(env, line), db, end, n)
    ensures Goes(env, line, a, Alone(line, end))
    decreases n
  {
    if n > 0 {
      StepIsTaken(env, line, a, db);
      ChainIsTaken(env, line, a, Step(env, line, db).value, end, n - 1);
    }
  }

  /** On a current database an instance gets through without a step, and says so. */
  lemma CurrentIsReported<S(!new)>(env: Env<S>, line: seq<Migration>, a: World<S>, db: Db<S>)
    requires Embedded(line) && |line| > 0 && Goes(env, line, a, Alone(line, db)) && Exact(line, db.ledger)
    ensures Goes(env, line, a, At(line, db, Some(0), Current))
  {
    assert 1 in db.ledger;
    GoesToTurn(env, line, a, db, |line|);
    assert db.ledger.Keys == Versions(|line|);
    var last, current := At(line, db, Some(0), Applying(|line|, db.ledger.Keys)), At(line, db, Some(0), Current);
    assert |db.ledger| == |db.ledger.Keys|;
    assert Verify(last, 0, current);
    GoesOn(env, line, a, last, current);
  }

  /** Safety is exact: from an idle instance the runs lead to precisely the databases on the chain. */
  lemma ReachableIffOnChain<S(!new)>(env: Env<S>, line: seq<Migration>, start: Db<S>, end: Db<S>)
    requires Embedded(line) && |line| > 0
    ensures (exists run: seq<World<S>> ::
               Run(env, line, run) && run[0] == Alone(line, start) && run[|run| - 1].db == end) <==>
            Leads(Next(env, line), start, end)
  {
    var a := Alone(line, start);
    if run: seq<World<S>> :| Run(env, line, run) && run[0] == a && run[|run| - 1].db == end {
      RunIsSafe(env, line, run);
    }
    if Leads(Next(env, line), start, end) {
      var n: nat :| Reaches(Next(env, line), start, end, n);
      GoesSelf(env, line, a);
      ChainIsTaken(env, line, a, start, end, n);
      var run :| Run(env, line, run) && run[0] == a && run[|run| - 1] == Alone(line, end);
    }
  }
}
