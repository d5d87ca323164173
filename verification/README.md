# Verified models of the CPIM-MES core

This project models the parts of CPIM-MES in which state, failure and interleaving matter, and proves
what they keep. `dafny verify dfyconfig.toml` checks the whole project.

- **Schema migrations** (`SqlScript`, `MigrationLoader`, `MigrationModel`, `MigrationManager`,
  `MigrationProtocol`, `MigrationHistory`). `MigrationManager.Database` is the database that other
  sessions see; every statement can fail and a commit can be lost, or take effect and still be reported
  as failed. The key notion is `MigrationModel.Step`: the one transaction that a start-up of a binary
  commits next, which depends on the database alone. `Migrate`, whatever fails, takes some number of
  these steps. `MigrationProtocol` interleaves any number of instances of any binaries of one release
  line statement by statement, with crashes, and shows that the database still only moves along one
  chain. `MigrationHistory` says what that chain means for fresh and for legacy databases. What a
  migration's SQL does and what a fingerprint sees are parameters (`Env`).
- **Login throttling** (`LoginLimiter`, `LoginHistory`, `LoginConcurrency`). `LoginRateLimiter` is the
  object with its two maps and its counter; its methods are proved against functions of the state. The
  functions are compared with a limiter that keeps the whole event log, evictions included. Times are
  integer nanoseconds.
- **BOM explosion** (`BomExplosion`). The recursive query on exact numbers, against level-by-level
  planning.
- **Observability** (`StringOrder`, `LabelKey`, `Metrics`, `SpanQueue`). Canonical series keys with a
  decoder, cumulative histograms, what scrapes see between the updates of many requests, and the
  bounded span queue.
- **Release and recovery tooling** (`SourceChecksums`, `VulnerabilityGates`, `DisasterRecovery`) and
  the **origin list** of the configuration (`OriginList`). Digests, the JSON scanner, pg_dump and
  pg_restore are parameters or fail freely.

`Text`, `Collections` and `Chains` hold shared notions: trimming, splitting and joining, facts about
sequences and sets, and chains of a partial step.

Where the repository's documentation and its code differ, the code is followed:
`docs/AUTOMATIC_DATABASE_MIGRATIONS.md` speaks of fingerprints for 0001 to 0025, the code has 0001 to
0041 without 0014.

Some statements one might expect do not hold. For these the project gives an input that fails and,
where it can, the exact condition:

- A legacy database at 0042 has no fingerprint for 0042, so its script runs a second time; the upgrade
  ends with the fresh schema exactly when 0042 too may be run again
  (`MigrationHistory.UnfingerprintedRunsAgain`). Up to 0041 it always does (`Converges`, `Upgrade`).
- The advertised Retry-After is not always honoured. Whoever comes back after the advertised wait is
  blocked by the same bucket again exactly when, meanwhile, the key got a new window that is still open
  and at its limit, and, for a user name, the address that comes back with it is not blocked itself,
  since the address is looked at first. A new window is opened by a failure at or after the advertised
  end, or by one at any time after a success of that user name or after an eviction of the key
  (`LoginHistory.RetryAfterExactly`, and runs from the empty limiter in `SuccessMovesTheEnd` and
  `EvictionMovesTheEnd`). If nothing gave the key a new window it is honoured, whatever else went on
  (`RetryAfterIsHonoured`).
- Below the cap the limiter decides like one that keeps all failures. At the cap an eviction shows, and
  it shows only as the end of its victim's window (`LoginHistory.Refines`).
- A BOM query does not end when a cycle can be reached, and only then
  (`BomExplosion.TerminatesIffNoCycle`).
- More than the configured number of failures can be counted, because checking and recording are
  separate critical sections: with C requests under way limit - 1 + C is never exceeded and, for every
  address and every user name, attained (`LoginConcurrency.InFlightBound`, `BoundIsAttained`).
- A file name with a line break is not read back from the generated checksum file: as a rule the file is
  malformed (`SourceChecksums.LineBreakBreaks`), and if the second half happens to be a checksum line it
  is well-formed and tells of two other files (`LineBreakSplits`). The file is read back, and its own
  tree accepted, exactly when all names are plain: not empty, on one line, relative and without parent
  components (`ReadBackIffPlain`, `AcceptsItselfIffPlain`).
- A release of plainly named files does not always verify in its own tree: it does exactly when git
  tracks what the verifier includes and no included path is a link (`SourceChecksums.ReleaseVerifies`).
  A tracked checksum file in a subdirectory rules this out (`NestedChecksumFileFails`).
- Label keys are unique for label names without an equals sign directly followed by a double quote,
  whatever the values hold (`LabelKey.KeysAreEqualIff`); all names that the modelled middleware
  passes are of this kind (`Metrics.PlanIsPlain`). The condition is sufficient, not exact, and some
  condition is needed: every set of two or more labels shares its key with one label of a longer name
  (`EqualsSignCollides`).
- A backup that fails or is killed after its archive is in place may leave a sidecar with which its own
  restore refuses that archive: an old one is accepted exactly when the digests of the old and the new
  archive are equal (`DisasterRecovery.OldSidecarFits`), one that was cut short exactly when the digest
  is all there (`CutSidecarFits`); nothing else can be left (`CreateBackup`).

## Model

| member | source | states |
|---|---|---|
| SqlScript.StripIsExact | backend/internal/migration/manager.go:26 | stripping empties exactly the standalone BEGIN;/COMMIT; lines, leaves every other line in place, and is idempotent |
| SqlScript.WrappedIsSame | backend/internal/migration/manager.go:257-260 | wrapping a script in wrapper lines of its own does not change what is executed |
| SqlScript.TransactionIsSame | backend/internal/migration/manager.go:257-260 | a script inside BEGIN; and COMMIT; lines of its own is executed like the bare script |
| SqlScript.OnlyWrappersIsEmpty | backend/internal/migration/manager.go:260-261 | of a script of wrapper lines and space nothing is left to execute |
| SqlScript.WrapperIff | backend/internal/migration/manager.go:26 | a line is a wrapper exactly when it is blanks, BEGIN; or COMMIT;, blanks, nothing or a -- comment, and at most one carriage return |
| SqlScript.ScriptIsMiddle | backend/internal/migration/manager.go:257-260 | what is executed is all of the stripped text but white space around it |
| SqlScript.CleanScriptIsExecuted | backend/internal/migration/manager.go:257-264 | a text without BEGIN; and COMMIT; is executed whole, trimmed |
| MigrationLoader.EmbedsIff | backend/internal/migration/manager.go:152-175 | an entry gives a migration exactly when it is a file named by four digits, an underscore and a name; version, name, the whole text and the digest of that text are its own |
| MigrationLoader.BadNameIff | backend/internal/migration/manager.go:152-159 | a name is refused exactly for an SQL file that no version and name give |
| MigrationLoader.SortByVersion | backend/internal/migration/manager.go:176 | the same migrations in strictly increasing version order |
| MigrationLoader.ReadFiles | backend/internal/migration/manager.go:152-175 | succeeds exactly when no SQL file has a bad name and no two have the same version, with exactly the migrations of the SQL files |
| MigrationLoader.Load | backend/internal/migration/manager.go:147-184 | there is a loaded set exactly when there is no bad name, no repeated version and no gap; it is numbered 1, 2, 3, ... and is exactly that of the SQL files |
| MigrationLoader.LoadedHasNoGap | backend/internal/migration/manager.go:176-182 | conversely, nothing with a bad name or a gap is ever loaded |
| MigrationModel.WrappersDoNotMatter | backend/internal/migration/manager.go:257-265 | a migration has the same effect with transaction wrapper lines around its script as without |
| MigrationModel.WrapperOnlyIsRecorded | backend/internal/migration/manager.go:260-271 | a migration of nothing but wrappers is recorded and leaves the schema alone |
| MigrationModel.CleanMigrationExecutes | backend/internal/migration/manager.go:257-265 | a migration without transaction words has the effect of its own trimmed text, or none when that is empty |
| MigrationModel.TrimmedChecksum | backend/internal/migration/manager.go:228 | on a char(64) column, comparing after trimming is plain equality with the digest |
| MigrationModel.LeadingRun | backend/internal/migration/manager.go:382-385 | the maximal leading run of detected fingerprints |
| MigrationModel.FirstMissing | backend/internal/migration/manager.go:127-130 | the lowest version without a row, all lower ones being recorded |
| MigrationModel.FillKeepsAccepted | backend/internal/migration/manager.go:242-247 | recording the first missing version, 14 included, keeps an accepted history accepted |
| MigrationModel.CountImpliesExact | backend/internal/migration/manager.go:279-288 | fitting rows with unique versions, as many as embedded, record exactly the embedded set |
| MigrationManager.Database.Commit | backend/internal/migration/manager.go:273-275 | the transaction's whole effect or nothing, and the whole effect whenever no error is reported |
| MigrationManager.ReadApplied | backend/internal/migration/manager.go:206-212 | all ledger rows, each once, in version order |
| MigrationManager.CheckRow | backend/internal/migration/manager.go:221-230 | which of unknown version, name mismatch and checksum mismatch a row has, checked in this order |
| MigrationManager.ValidateRows | backend/internal/migration/manager.go:219-241 | reports the problem of the lowest row that does not fit, or all rows fit |
| MigrationManager.FindGap | backend/internal/migration/manager.go:242-248 | reports the lowest gap other than 14 below a recorded version, or there is none |
| MigrationManager.ValidateHistory | backend/internal/migration/manager.go:214-249 | accepts exactly the fitting histories without a gap other than 14, and names the first problem otherwise |
| MigrationManager.ApplyOne | backend/internal/migration/manager.go:251-277 | effect and ledger row together or neither, even when the commit is lost; done only if committed |
| MigrationManager.Inspect | backend/internal/migration/manager.go:355-370 | reads every fingerprint, and refuses at the first one that exists after a missing one |
| MigrationManager.CollectBaseline | backend/internal/migration/manager.go:381-397 | rows for exactly the maximal leading run, in order; refuses a fingerprint without an embedded migration |
| MigrationManager.BootstrapLegacy | backend/internal/migration/manager.go:341-405 | either fails with the ledger unchanged or records exactly the leading run of fingerprints, never touching the schema |
| MigrationManager.ApplyPending | backend/internal/migration/manager.go:122-138 | the database only takes steps of its chain; done means every embedded version is recorded and exactly those not read at the start were applied, ascending |
| MigrationManager.VerifyLatestState | backend/internal/migration/manager.go:279-288 | on a ledger whose rows fit, succeeds exactly when the ledger records exactly the embedded set, connection permitting |
| MigrationManager.ReadOrBaseline | backend/internal/migration/manager.go:98-116 | baselines only an empty ledger, by one step of the chain, and lists exactly the gained versions |
| MigrationManager.CurrentStays | backend/internal/migration/manager.go:118-144 | from a current database no step is left, so a second start-up changes nothing |
| MigrationManager.Migrate | backend/internal/migration/manager.go:67-145 | after any failure the database has taken some steps of its chain; success means exactly the embedded set with ascending AppliedNow disjoint from Baselined; a current database is left as it is; refusals are true; a reliable connection takes the whole chain |
| MigrationProtocol.MoveIsSafe | backend/internal/migration/manager.go:82-144 | every statement of every instance keeps mutual exclusion and the holder's memory in step with the database, and changes the database only by the mover's next step |
| MigrationProtocol.PrefixSteps | backend/internal/migration/manager.go:118-138 | where an older binary takes a step, every newer binary of the line takes the same |
| MigrationProtocol.PrefixAccepts | backend/internal/migration/manager.go:214-233 | an older binary accepts a history exactly when the line does and no recorded version is unknown to it |
| MigrationProtocol.RunIsSafe | backend/internal/migration/manager.go:67-145 | in every interleaving of instances, binaries and crashes the database moves along one chain |
| MigrationProtocol.ReachableIffOnChain | backend/internal/migration/manager.go:67-145 | the databases that runs from an idle instance reach are exactly those on the chain |
| MigrationProtocol.CurrentIsReported | backend/internal/migration/manager.go:118-144 | on a current database an instance gets through to the end and finds it current |
| MigrationProtocol.CompletedRunsAgree | backend/internal/migration/manager.go:127-144 | upgrading through any binaries in any interleaving ends with the same database as one direct upgrade |
| MigrationHistory.LegacyExists | backend/internal/migration/manager.go:298-339 | legacy databases of every level exist, so what follows is said of something |
| MigrationHistory.LegacyBaseline | backend/internal/migration/manager.go:298-405 | a legacy database at k up to 41 is baselined with exactly 1..k without 14 |
| MigrationHistory.StageStep | backend/internal/migration/manager.go:104-138 | from each stage of a legacy or fresh database the next step leads to the next stage, and is missing only at the end or where a fresh install fails too |
| MigrationHistory.LedgerSafety | backend/internal/migration/manager.go:214-277 | in all runs the ledger is 1..n or 1..n without 14, the schema is the effect of exactly the recorded versions and the legacy level, and validation rejects only unknown versions |
| MigrationHistory.FreshIsNeverBaselined | backend/internal/migration/manager.go:104-116 | an empty ledger of a database that only the manager touched implies an untouched schema, so the baseline never fires |
| MigrationHistory.Converges | backend/internal/migration/manager.go:104-138 | a chain from a legacy database ends exactly when the ledger is current, with the schema of a fresh install |
| MigrationHistory.Upgrade | backend/internal/migration/manager.go:67-145 | over a reliable connection the upgrade of a legacy database succeeds with the fresh schema, every version either baselined or applied |
| MigrationHistory.UnfingerprintedRunsAgain | backend/internal/migration/manager.go:298-339 | a legacy database at 42 runs 0042 again, and converges exactly when that is a no-op |
| LoginLimiter.WithDefaults | backend/internal/api/login_rate_limit.go:45-54 | a limit that is not positive becomes 15 minutes, 30 or 5; a positive one is kept |
| LoginLimiter.LoginRateLimiter.CheckLogin | backend/internal/api/login_rate_limit.go:63-79 | decision and new state are those of Check on the trimmed and lowered keys |
| LoginLimiter.LoginRateLimiter.RecordFailure | backend/internal/api/login_rate_limit.go:81-105 | decision and new state are those of Fail, with a victim in each store exactly when it has no room |
| LoginLimiter.LoginRateLimiter.RecordSuccess | backend/internal/api/login_rate_limit.go:107-121 | only the bucket of that user name is cleared |
| LoginLimiter.SameNameIff | backend/internal/api/login_rate_limit.go:156-158 | two raw names have one key exactly when their trimmed texts agree character by character after lower-casing |
| LoginLimiter.SpaceDoesNotMatter | backend/internal/api/login_rate_limit.go:63-67 | white space around an address or a name does not change its key |
| LoginLimiter.SpellingsAreOne | backend/internal/api/login_rate_limit.go:63-121 | all spellings of one name get the same decision and the same new state from a check, a failure and a success |
| LoginLimiter.LoginRateLimiter.Maintenance | backend/internal/api/login_rate_limit.go:123-130 | every 64th operation sweeps both stores, the counter wrapping at 64 bits |
| LoginLimiter.SweepsEvery64th | backend/internal/api/login_rate_limit.go:123-130 | after every 64th operation, and after no other, both stores are swept; the counter wraps at 64 bits |
| LoginLimiter.DeleteExpired | backend/internal/api/login_rate_limit.go:132-138 | keeps exactly the buckets that have not expired |
| LoginLimiter.EnsureCapacity | backend/internal/api/login_rate_limit.go:140-154 | makes room by one arbitrary tracked key, exactly for a new key at the cap |
| LoginLimiter.BlockedDecision | backend/internal/api/login_rate_limit.go:160-176 | forgets only the key's own expired bucket, and blocks on an open bucket at its limit |
| LoginLimiter.Increment | backend/internal/api/login_rate_limit.go:178-189 | opens a window or counts in the open one |
| LoginLimiter.CheckBounds | backend/internal/api/login_rate_limit.go:63-79 | with a clock that does not run back a block waits exactly for the rest of an open bucket at its limit, at most one window, and the cap is kept |
| LoginLimiter.FailBounds | backend/internal/api/login_rate_limit.go:81-105 | the same for recording a failure, evictions included |
| LoginLimiter.RetrySecondsIsLeast | backend/internal/api/auth.go:227-232 | the header is the least number of whole seconds that reaches the reset |
| LoginHistory.CheckAgrees | backend/internal/api/login_rate_limit.go:63-79 | a check decides as the event log does and stays in agreement with it |
| LoginHistory.CountAgrees | backend/internal/api/login_rate_limit.go:178-189 | evicting and counting close, open or extend the same windows in the store and in the log |
| LoginHistory.FailAgrees | backend/internal/api/login_rate_limit.go:81-105 | recording a failure decides as the event log does, evictions included |
| LoginHistory.Refines | backend/internal/api/login_rate_limit.go:63-189 | in every run all decisions equal those of the limiter that keeps all events and deletes nothing; sweeps and lazy deletion are unobservable, an eviction closes its victim's window, and below the cap there is none |
| LoginHistory.RunBounds | backend/internal/api/login_rate_limit.go:34-189 | in every run both stores stay at or below 50000 keys and every wait is what is left of an open bucket, at most one window |
| LoginHistory.BoundsFromStart | backend/internal/api/login_rate_limit.go:34-189 | the same bounds in every run from the empty limiter |
| LoginHistory.NoFallback | backend/internal/api/login_rate_limit.go:191-197 | in every state and with clock readings in any order a blocked decision waits exactly for the rest of an open bucket, so the one-second fallback is never used |
| LoginHistory.RetryAfterExactly | backend/internal/api/auth.go:227-232 | whoever comes back after the seconds of the 429 answer is blocked by that bucket again if and only if the key has a new window that is still open and at its limit and, for a user name, the address that comes back is not blocked by its own window |
| LoginHistory.RetryAfterIsHonoured | backend/internal/api/auth.go:227-232 | in every run, evictions included, a check after the seconds of the 429 answer is not blocked by that bucket if nothing gave the key a new window |
| LoginHistory.StrictLimits | backend/internal/api/login_rate_limit.go:45-54 | the default window with one failure allowed is a setting for the two runs below |
| LoginHistory.SuccessMovesTheEnd | backend/internal/api/login_rate_limit.go:107-121 | a success in between, followed by a failure before the advertised time, keeps the key blocked beyond it |
| LoginHistory.EvictionMovesTheEnd | backend/internal/api/login_rate_limit.go:140-154 | after failures of 49,999 other names an eviction of the blocked key, followed by a failure before the advertised time, keeps it blocked beyond it, in a run from the empty limiter |
| LoginConcurrency.Throttle | backend/internal/api/auth.go:227-232 | the 429 answer names the bucket of the decision and the least whole number of seconds that covers its wait |
| LoginConcurrency.AuthenticateLogin | backend/internal/api/auth.go:192-225 | credentials are tried exactly when the check allows; state and answer of every branch, a 429 with the bucket of its decision and the least seconds that cover its wait; a wrong attempt is answered 429 exactly when a limit is then reached |
| LoginConcurrency.ActKeeps | backend/internal/api/auth.go:192-225 | every critical section keeps recorded plus pending failures within limit - 1 + C |
| LoginConcurrency.InFlightBound | backend/internal/api/auth.go:192-225 | with at most C requests under way no tracked key ever exceeds limit - 1 + C failures, for any interleaving and clocks |
| LoginConcurrency.BoundIsAttained | backend/internal/api/auth.go:192-225 | for every address and every user name some run reaches exactly that number, so no smaller bound holds |
| BomExplosion.TotalOfJoin | backend/internal/repository/repository.go:187-190 | one iteration moves every quantity down exactly one line |
| BomExplosion.LevelIsWalks | backend/internal/repository/repository.go:181-191 | a component stands at a level exactly when a walk with that many steps ends at it |
| BomExplosion.TerminatesIffNoCycle | backend/internal/repository/repository.go:181-191 | the query ends exactly when no cycle is reachable, at the latest after as many levels as lines; with a cycle no level is empty |
| BomExplosion.OneLine | backend/internal/repository/repository.go:182-197 | a BOM of one line gives its component at level 1 with quantity times one plus scrap times the ordered quantity, and nothing else |
| BomExplosion.TreeUnfold | backend/internal/repository/repository.go:182-191 | the tree to one more level is one join of the ordered item with the tree |
| BomExplosion.ExplodeIsRequirement | backend/internal/repository/repository.go:179-197 | for any valid low-level codes the totals over levels are the gross requirement of level-by-level planning, which takes each line with its own quantity and scrap |
| BomExplosion.AcyclicHasCodes | backend/internal/repository/repository.go:142-147 | every acyclic BOM has valid low-level codes: the longest walk into each item |
| BomExplosion.ExplodeAgreesWithPlanning | backend/internal/repository/repository.go:179-197 | for every acyclic BOM the query ends and agrees with planning by those codes |
| BomExplosion.ExplodeAgreesBelow | backend/internal/repository/repository.go:179-197 | whenever the query ends, whatever the rest of the BOM looks like, the lines below the root are acyclic and the result is the gross requirement planned from them |
| BomExplosion.ExplodeComposes | backend/internal/repository/repository.go:182-191 | exploding an item is its lines plus the explosion of each component one level down, row for row |
| BomExplosion.GroupsCompose | backend/internal/repository/repository.go:179-197 | the grouped result: level 1 is the direct lines, every further level adds up the components' own results one level higher, with exactly their groups |
| BomExplosion.ExplodeAdditive | backend/internal/repository/repository.go:179-197 | the result is additive in the ordered quantity, group by group |
| StringOrder.LessIff | backend/internal/observability/metrics.go:104 | one string is below another exactly when it ends or has the lower code point at their first difference |
| StringOrder.ListingIsUnique | backend/internal/observability/metrics.go:104 | sorting has one result, whatever order the map yields |
| StringOrder.Sort | backend/internal/observability/metrics.go:104 | the same strings in ascending order |
| LabelKey.LabelsKey | backend/internal/observability/metrics.go:96-115 | the canonical key, from the names in any iteration order |
| LabelKey.EscapeTable | backend/internal/observability/metrics.go:112 | quotes and backslashes are written behind a backslash, other printable runes as they are, the seven control characters by their letters |
| LabelKey.PlainIsVerbatim | backend/internal/observability/metrics.go:112 | a value of printable runes without quotes and backslashes is written as it is |
| LabelKey.RuneRoundTrip | backend/internal/observability/metrics.go:112 | every escaped rune is read back, whatever follows |
| LabelKey.QuotedRoundTrip | backend/internal/observability/metrics.go:112 | reading a quoted value stops exactly at its end, whatever it holds |
| LabelKey.DecodeOfRender | backend/internal/observability/metrics.go:106-114 | the decoder gives back all names and values of a key |
| LabelKey.KeysAreEqualIff | backend/internal/observability/metrics.go:96-115 | keys are equal exactly when the label sets are, for names without an equals sign directly followed by a double quote |
| LabelKey.EqualsSignCollides | backend/internal/observability/metrics.go:110-112 | every set of two or more labels has the key of a single label, whose name holds an equals sign directly followed by a double quote |
| Metrics.Registry.IncCounter | backend/internal/observability/metrics.go:117-130 | exactly the series of that key goes up by one |
| Metrics.Registry.ObserveDuration | backend/internal/observability/metrics.go:132-157 | exactly the histogram of that key takes the observation in |
| Metrics.SeriesSummarize | backend/internal/observability/metrics.go:150-156 | each series holds count, sum and bucket counts of exactly its own observations |
| Metrics.BucketsAreCumulative | backend/internal/observability/metrics.go:336-351 | buckets grow with their bounds and never exceed the count |
| Metrics.ValueAfter | backend/internal/observability/metrics.go:117-157 | an update changes the value of its own label set and of no other |
| Metrics.RunIsExact | backend/internal/observability/metrics.go:184-237 | in any interleaving every series counts exactly the updates made for its label set |
| Metrics.PlanIs | backend/internal/observability/metrics.go:184-237 | what a request updates, family by family: requests by method, route and status, durations by method and route, and for a POST to one of the six planning routes the two families of that route by result |
| Metrics.StatusDigits | backend/internal/observability/metrics.go:192-196 | the status label is the three digits of the code |
| Metrics.Served | backend/internal/observability/metrics.go:184-237 | every request can be served to its end, with all its updates made |
| Metrics.RecoveryPlan | backend/internal/observability/metrics.go:202-235 | exactly a failed POST to the simulation route records run, failure and duration, in this order; every other request records none of them |
| Metrics.ScrapeIsConsistent | backend/internal/observability/metrics.go:192-200 | requests over all statuses minus observed durations is the number of requests between the two updates, at every moment |
| Metrics.RecoveryIsConsistent | backend/internal/observability/metrics.go:230-235 | failed runs, failures and failed durations are ordered at every moment and equal when nothing is in progress |
| SpanQueue.StepConserves | backend/internal/observability/otlp.go:183-213 | every step of End, worker and Close keeps conservation, order and the queue bound |
| SpanQueue.SpansAreConserved | backend/internal/observability/otlp.go:163-213 | in every interleaving each valid ended span is accounted for once, the queue stays within the configured size or 256, finished spans are the first accepted ones in order, and when done all accepted spans were exported or failed |
| SpanQueue.SpanExporter.EndSpan | backend/internal/observability/otlp.go:163-188 | never blocks: queues at the end, or counts a drop when full, or ignores a span without identifiers, each by the steps of the interleaving model |
| SpanQueue.SpanExporter.CloseAndDrain | backend/internal/observability/otlp.go:190-213 | ends with an empty queue and every accepted span finished in order, by some sequence of steps of the interleaving model |
| DisasterRecovery.ValidNameIff | scripts/postgres_dr.py:86-89 | a database name is valid exactly when it is a letter or underscore and at most 62 letters, digits and underscores |
| DisasterRecovery.HexDigestsExist | scripts/postgres_dr.py:147-152 | digests of the kind asked for exist |
| DisasterRecovery.BaseNameIs | scripts/postgres_dr.py:224 | the name in the sidecar is the last component of the archive path |
| DisasterRecovery.SidecarFitsIff | scripts/postgres_dr.py:170-180 | a sidecar is accepted exactly when its first field, between white space, spells the digest in letters of either case |
| DisasterRecovery.SidecarRoundTrip | scripts/postgres_dr.py:170-180 | the sidecar a backup writes is accepted when the archive is restored |
| DisasterRecovery.OldSidecarFits | scripts/postgres_dr.py:170-222 | beside a new archive an old fitting sidecar is accepted exactly when the digests are equal |
| DisasterRecovery.CutSidecarFits | scripts/postgres_dr.py:170-224 | a sidecar cut short is accepted exactly when the digest is all there |
| DisasterRecovery.Host.DropDatabase | scripts/postgres_dr.py:252-257 | the source database is refused before anything is sent; any other valid name is dropped, connection permitting |
| DisasterRecovery.Host.VerifySidecar | scripts/postgres_dr.py:170-180 | passes only without a sidecar or with one that names the digest of the archive, and then exactly, connection permitting |
| DisasterRecovery.Host.DumpTo | scripts/postgres_dr.py:197-219 | the output appears in one step, only from a complete dump; a raise leaves no temporary file; over a reliable connection it appears exactly for a dump that succeeded and is not empty |
| DisasterRecovery.Host.CreateBackup | scripts/postgres_dr.py:183-243 | wherever it stops the output holds its old content or a complete archive, and the sidecar its old content or as much of the fitting one as was written; success leaves archive, digest with the base name, and manifest, and nothing else; over a reliable connection it succeeds exactly for a readable source and a good dump |
| DisasterRecovery.Host.RestoreBackup | scripts/postgres_dr.py:265-305 | however it ends, raised or killed: touches only the target, nothing at all for the source, a bad sidecar or an existing target without the flag; drops only what it may replace or has created; success leaves the content of the archive; over a reliable connection it succeeds exactly for a good archive that holds a database with a ledger, a fitting sidecar, valid names, a target other than the source, and the flag if the target exists, and a failed target is cleaned up if asked for |
| DisasterRecovery.Host.RunDrill | scripts/postgres_dr.py:308-359 | however it ends touches only its own database; a pass means the archive holds a database with the ledger of the source at the expected level, objects and row counts; over a reliable connection it passes exactly then, and its database is gone |
| DisasterRecovery.Host.Session | scripts/postgres_dr.py:381-395 | over any sequence of invocations raising or killed at any command the source database is never dropped, created or restored into |
| VulnerabilityGates.DecodeStream | scripts/evaluate_govulncheck.py:14-29 | the messages of the stream, or an error exactly when it is malformed or empty |
| VulnerabilityGates.VerifierDecode | scripts/verify_release_bundle.py:185-203 | the same stream with the reason of the error |
| VulnerabilityGates.StreamRoundTrip | scripts/evaluate_govulncheck.py:18-29 | any concatenation of printed objects with any space between is decoded to exactly these objects, given that these objects are read back where they stand |
| VulnerabilityGates.ScannersExist | scripts/evaluate_govulncheck.py:15-24 | for every list of objects there are a scanner and a printer as the round trip asks for |
| VulnerabilityGates.SymbolLevelIff | scripts/evaluate_govulncheck.py:36-48 | a finding is symbol-level exactly when it is an object whose trace is a list that begins with an object whose function is a text of more than white space |
| VulnerabilityGates.FalsyValues | scripts/evaluate_govulncheck.py:49-51 | the six kinds of values that count as false |
| VulnerabilityGates.OsvIs | scripts/evaluate_govulncheck.py:49 | the identifier is the value under osv, or unknown when that is missing or false |
| VulnerabilityGates.Examine | scripts/evaluate_govulncheck.py:36-55 | the gate's own filter selects exactly the symbol-level findings, with their four fields |
| VulnerabilityGates.ReachableFindings | scripts/evaluate_govulncheck.py:32-61 | exactly the symbol-level findings, none twice |
| VulnerabilityGates.VerifierFindings | scripts/verify_release_bundle.py:206-218 | the verifier's own filter selects exactly the findings of the symbol-level messages |
| VulnerabilityGates.Gate | scripts/evaluate_govulncheck.py:72-102 | exit code 2 exactly for an unreadable stream, 1 exactly with findings, and the identifiers of the findings |
| VulnerabilityGates.VerifyReport | scripts/verify_release_bundle.py:227-234 | accepts exactly a readable stream without findings, and names the same identifiers |
| VulnerabilityGates.GatesAgree | scripts/verify_release_bundle.py:206-234 | on every text the verifier accepts exactly when the gate exits with zero, and both name the same identifiers, although each filters and collects in its own way |
| SourceChecksums.Generate | scripts/generate_source_checksums.py:58-82 | succeeds exactly when every tracked name is a regular file, and prints their lines in name order |
| SourceChecksums.Verify | scripts/verify_source_checksums.py:53-102 | passes exactly when every line parses, no included link exists, and names and digests match the tree both ways |
| SourceChecksums.BreakTable | scripts/verify_source_checksums.py:59 | the ten code points that end a line |
| SourceChecksums.SplitAt | scripts/verify_source_checksums.py:59 | a line ends at its first line break |
| SourceChecksums.SplitAtBoth | scripts/verify_source_checksums.py:59 | a carriage return takes a newline behind it along |
| SourceChecksums.SplitLast | scripts/verify_source_checksums.py:59 | a last line needs no line break |
| SourceChecksums.ParseLineIff | scripts/verify_source_checksums.py:62-66 | a line is read as digest and name exactly when it is 64 lower-case hexadecimal digits, two blanks, ./ and a name on one line |
| SourceChecksums.UnsafeIff | scripts/verify_source_checksums.py:67-70 | a name is refused exactly when it begins with a slash or has a .. component |
| SourceChecksums.IncludedIff | scripts/verify_source_checksums.py:38-50 | a path is included exactly when git does not ignore it, no component is an excluded directory, and its last component is neither an excluded file nor compiled Python |
| SourceChecksums.HexDigestsExist | scripts/verify_source_checksums.py:16-21 | digests of the kind asked for exist |
| SourceChecksums.LineParses | scripts/verify_source_checksums.py:62-73 | the line printed for a plain name is read back as its digest and name |
| SourceChecksums.FileRoundTrip | scripts/generate_source_checksums.py:80-82 | parsing the printed file gives back every name with its digest and no error |
| SourceChecksums.AcceptsIffDigestsAgree | scripts/verify_source_checksums.py:75-94 | whatever the digest, the generated file is accepted exactly for equal included names with equal digests and no included link |
| SourceChecksums.AcceptsExactlyTheSameTree | scripts/verify_source_checksums.py:75-94 | when the digest tells the compared contents apart, the generated file is accepted for exactly the trees with the same included files and contents and no included link |
| SourceChecksums.ReadBackIffPlain | scripts/verify_source_checksums.py:59-73 | the printed file is read back without error exactly when all names are plain |
| SourceChecksums.AcceptsItselfIffPlain | scripts/verify_source_checksums.py:53-102 | a tree passes against its own generated file exactly when its names are plain and no included path is a link |
| SourceChecksums.AcceptsItselfIffIncluded | scripts/verify_source_checksums.py:75-94 | a tree with plain names passes against its own generated file exactly when the listed names are the included files and no included path is a link |
| SourceChecksums.ReleaseVerifies | scripts/verify_source_checksums.py:39-50 | a release verifies in its own tree exactly when git tracks the files that the inclusion rules name |
| SourceChecksums.NestedChecksumFileFails | scripts/verify_source_checksums.py:44-45 | a tracked checksum file in a subdirectory at any depth makes every release fail its own verification |
| SourceChecksums.LineBreakBreaks | scripts/verify_source_checksums.py:59-65 | a name with a line break and one more character makes the file malformed |
| SourceChecksums.LineBreakSplits | scripts/verify_source_checksums.py:59-73 | a name whose second half is a checksum line gives a well-formed file about two other files |
| Text.GoSpaceTable | backend/internal/config/config.go:377-395 | the white space that trimming takes away, code point by code point |
| Text.TrimParts | backend/internal/config/config.go:377-395 | trimming takes away exactly the white space at both ends |
| Text.PartIff | backend/internal/config/config.go:377-395 | splitting gives exactly the parts between the separators |
| OriginList.SplitCsv | backend/internal/config/config.go:377-395 | the loop computes the list |
| OriginList.NormalForm | backend/internal/config/config.go:377-395 | exactly the trimmed parts between commas that are not empty, each once, in first-occurrence order, free of commas and surrounding space |
| OriginList.RoundTrip | backend/internal/config/config.go:377-395 | splitting the comma-join of the list gives the same list |

## Left out

- Planning services (MRP, scheduling, order promising, recovery execution): their code is outside these models; the gross requirement of `BomExplosion` is the reference they are compared by, without netting and lead times.
- HTTP handlers, routing, cookies, authorization tables, JSON request decoding and the front end: plumbing without state of its own.
- SQL of the migrations and of triggers: a migration is an arbitrary partial function on schema states.
- Directory reading and file reading errors of the migration loader, log output, execution times and `installed_by`.
- The advisory lock's own SQL and its timeout on release: the lock is held by at most one session and goes with it.
- Legacy databases that were not produced by 1..k in order: `Decide` covers them (they are refused or baselined by their fingerprints), the history theorems do not.
- `LoginHistory`: operations read the clock in the order in which they take the lock. The code reads it before locking, so two requests may be served in the other order; `LoginHistory.NoFallback` and the bounds of `LoginConcurrency` do not need the order, refinement, the one-window bound and the statements about Retry-After do.
- Invalid UTF-8: strings are sequences of Unicode scalar values, so byte escapes in quoted label values and undecodable file names do not occur.
- Which runes are printable and what lower-casing does to one rune: both are arbitrary functions.
- Counters do not wrap at 64 bits in `Metrics` and `SpanQueue`; the limiter's operation counter does.
- Floating-point rounding of durations, sums and BOM quantities: exact reals.
- The text format of the exposition and its order, gauges, and the HTTP export with its payload: an export succeeds or fails freely.
- `BomExplosion` leaves out the join with `items` (a foreign key makes it total) and the order of rows by level and code.
- Of the manifest of a backup the first line stands for all: the others hold a time, sizes and versions.
- Code names of psql and docker invocations, environment variables, backup file naming, and unlinking a drill's own generated backup afterwards.
- Database commands that go on by themselves after the process that sent them was killed: a killed command has taken effect by then or never does.
- Writers that change the source database while a drill compares: the model's source holds still.
- SHA-256: a function to hexadecimal digests, of which a lemma asks at most that it tells the compared contents apart.
