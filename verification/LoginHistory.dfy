/** Whole runs of the login rate limiter, against a limiter that keeps every event and forgets none. */
module LoginHistory {
  import opened Text
  import opened LoginLimiter

  // ---------------------------------------------------------------- operations and runs

  /** One operation with its trimmed and lowered keys; a failure carries the keys that it evicted,
      which are none as long as the stores have room. */
  datatype Op =
    | CheckOp(ip: string, user: string, now: int)
    | FailOp(ip: string, user: string, now: int, ipVictim: Option<string>, userVictim: Option<string>)
    | SuccessOp(user: string)

  const EMPTY: State := State(map[], map[], 0)

  function Clock(op: Op, before: int): int {
    if op.SuccessOp? then before else op.now
  }

  function Do(cfg: Config, s: State, op: Op): (State, Decision) {
    match op
    case CheckOp(ip, user, now) => Check(cfg, s, ip, user, now)
    case FailOp(ip, user, now, v, w) => Fail(cfg, s, ip, user, now, v, w)
    case SuccessOp(user) => (Succeed(s, user), Allowed)
  }

  /** The clock does not run back, and a failure evicts some key of a store that has no room. */
  ghost predicate Can(s: State, clock: int, op: Op) {
    clock <= Clock(op, clock) &&
    (op.FailOp? ==> Victims(s, op.ip, op.user, op.now, op.ipVictim, op.userVictim))
  }

  ghost predicate Possible(cfg: Config, s: State, clock: int, ops: seq<Op>)
    decreases |ops|
  {
    ops == [] || (Can(s, clock, ops[0]) && Possible(cfg, Do(cfg, s, ops[0]).0, Clock(ops[0], clock), ops[1..]))
  }

  function Ends(cfg: Config, s: State, ops: seq<Op>): State
    decreases |ops|
  {
    if ops == [] then s else Ends(cfg, Do(cfg, s, ops[0]).0, ops[1..])
  }

  function LastClock(clock: int, ops: seq<Op>): int
    decreases |ops|
  {
    if ops == [] then clock else LastClock(Clock(ops[0], clock), ops[1..])
  }

  function Decisions(cfg: Config, s: State, ops: seq<Op>): seq<Decision>
    decreases |ops|
  {
    if ops == [] then [] else [Do(cfg, s, ops[0]).1] + Decisions(cfg, Do(cfg, s, ops[0]).0, ops[1..])
  }

  // ---------------------------------------------------------------- the reference limiter

  function KeyOf(kind: Kind, op: Op): string
    requires !op.SuccessOp?
  {
    if kind.Ip? then op.ip else op.user
  }

  function VictimOf(kind: Kind, op: Op): Option<string>
    requires op.FailOp?
  {
    if kind.Ip? then op.ipVictim else op.userVictim
  }

  /** The fixed window that a key is in after these events: the first failure after the end of the
      last window opens one, later ones count in it, a success closes the one of its user name, and
      an eviction that of its victim. */
  function Window(kind: Kind, events: seq<Op>, key: string, width: int): Option<Bucket> {
    if events == [] then None
    else
      var e := events[|events| - 1];
      var before := Window(kind, events[..|events| - 1], key, width);
      match e
      case FailOp(_, _, now, _, _) =>
        if VictimOf(kind, e) == Some(key) then None
        else if KeyOf(kind, e) != key then before
        else if before.None? || now >= before.value.resetAt then Some(Bucket(1, now + width))
        else Some(Bucket(before.value.failures + 1, before.value.resetAt))
      case SuccessOp(user) => if kind.Username? && user == key then None else before
      case CheckOp(_, _, _) => before
  }

  /** Blocked while the window is open and has reached the limit. */
  function Verdict(w: Option<Bucket>, max: int, now: int, kind: Kind): Decision {
    if w.Some? && now < w.value.resetAt && w.value.failures >= max then Blocked(kind, w.value.resetAt - now)
    else Allowed
  }

  function VerdictOn(kind: Kind, cfg: Config, events: seq<Op>, key: string, now: int): Decision {
    if key == "" then Allowed else Verdict(Window(kind, events, key, cfg.window), Limit(kind, cfg), now, kind)
  }

  /** The decision of one operation from the events before it; a failure counts itself. */
  function Reference(cfg: Config, events: seq<Op>, op: Op): Decision {
    if op.SuccessOp? then Allowed
    else
      var known := if op.FailOp? then events + [op] else events;
      var byIp := VerdictOn(Ip, cfg, known, op.ip, op.now);
      if byIp.Blocked? then byIp else VerdictOn(Username, cfg, known, op.user, op.now)
  }

  function References(cfg: Config, events: seq<Op>, ops: seq<Op>): seq<Decision>
    decreases |ops|
  {
    if ops == [] then [] else [Reference(cfg, events, ops[0])] + References(cfg, events + [ops[0]], ops[1..])
  }

  // ---------------------------------------------------------------- agreement

  function Open(w: Option<Bucket>, now: int): Option<Bucket> {
    if w.Some? && now < w.value.resetAt then w else None
  }

  function Lookup(store: Store, key: string): Option<Bucket> {
    if key in store then Some(store[key]) else None
  }

  /** From `clock` on, the store shows the same open windows as the events. */
  ghost predicate Shows(kind: Kind, store: Store, events: seq<Op>, width: int, clock: int) {
    forall key {:trigger Lookup(store, key)} :: key != "" ==>
      Open(Lookup(store, key), clock) == Open(Window(kind, events, key, width), clock)
  }

  ghost predicate Agree(cfg: Config, s: State, events: seq<Op>, clock: int) {
    Shows(Ip, s.ip, events, cfg.window, clock) && Shows(Username, s.user, events, cfg.window, clock)
  }

  lemma ShowsLater(kind: Kind, store: Store, events: seq<Op>, width: int, clock: int, now: int)
    requires Shows(kind, store, events, width, clock) && clock <= now
    ensures Shows(kind, store, events, width, now)
  {
    forall key | key != "" ensures Open(Lookup(store, key), now) == Open(Window(kind, events, key, width), now) {
      assert Open(Lookup(store, key), clock) == Open(Window(kind, events, key, width), clock);
    }
  }

  /** Deleting expired buckets is not observable. */
  lemma ShowsAfterDeletion(kind: Kind, store: Store, kept: Store, events: seq<Op>, width: int, now: int)
    requires Shows(kind, store, events, width, now)
    requires forall k :: k in store && !Expired(store[k], now) ==> k in kept && kept[k] == store[k]
    requires forall k :: k in kept ==> k in store && kept[k] == store[k]
    ensures Shows(kind, kept, events, width, now)
  {
    forall key | key != "" ensures Open(Lookup(kept, key), now) == Open(Window(kind, events, key, width), now) {
      assert Open(Lookup(store, key), now) == Open(Window(kind, events, key, width), now);
    }
  }

  lemma MaintainedAgrees(cfg: Config, s: State, events: seq<Op>, clock: int, now: int)
    requires Agree(cfg, s, events, clock) && clock <= now
    ensures Agree(cfg, Maintained(s, now), events, now)
  {
    ShowsLater(Ip, s.ip, events, cfg.window, clock, now);
    ShowsLater(Username, s.user, events, cfg.window, clock, now);
    ShowsAfterDeletion(Ip, s.ip, Swept(s.ip, now), events, cfg.window, now);
    ShowsAfterDeletion(Username, s.user, Swept(s.user, now), events, cfg.window, now);
  }

  /** An event that is no failure and no success of this kind leaves the windows as they are. */
  lemma SilentEvent(kind: Kind, store: Store, events: seq<Op>, op: Op, width: int, now: int)
    requires Shows(kind, store, events, width, now) && (op.CheckOp? || (op.SuccessOp? && kind.Ip?))
    ensures Shows(kind, store, events + [op], width, now)
  {
    forall key | key != ""
      ensures Open(Lookup(store, key), now) == Open(Window(kind, events + [op], key, width), now)
    {
      assert Open(Lookup(store, key), now) == Open(Window(kind, events, key, width), now);
      assert (events + [op])[..|events|] == events;
    }
  }

  lemma VerdictAgrees(kind: Kind, cfg: Config, store: Store, events: seq<Op>, key: string, now: int)
    requires Shows(kind, store, events, cfg.window, now)
    ensures BlockedBy(store, key, Limit(kind, cfg), now, kind) == VerdictOn(kind, cfg, events, key, now)
  {
    if key != "" {
      assert Open(Lookup(store, key), now) == Open(Window(kind, events, key, cfg.window), now);
    }
  }

  lemma CheckAgrees(cfg: Config, s: State, events: seq<Op>, clock: int, op: Op)
    requires Agree(cfg, s, events, clock) && op.CheckOp? && clock <= op.now
    ensures Do(cfg, s, op).1 == Reference(cfg, events, op)
    ensures Agree(cfg, Do(cfg, s, op).0, events + [op], op.now)
  {
    MaintainedAgrees(cfg, s, events, clock, op.now);
    var m := Maintained(s, op.now);
    VerdictAgrees(Ip, cfg, m.ip, events, op.ip, op.now);
    VerdictAgrees(Username, cfg, m.user, events, op.user, op.now);
    var after := Do(cfg, s, op).0;
    ShowsAfterDeletion(Ip, m.ip, after.ip, events, cfg.window, op.now);
    ShowsAfterDeletion(Username, m.user, after.user, events, cfg.window, op.now);
    SilentEvent(Ip, after.ip, events, op, cfg.window, op.now);
    SilentEvent(Username, after.user, events, op, cfg.window, op.now);
  }

  /** What one failure makes of one key, in the store and in the events. */
  lemma CountsKey(kind: Kind, store: Store, events: seq<Op>, op: Op, width: int, k: string)
    requires width > 0 && op.FailOp? && k != "" && Victim(store, KeyOf(kind, op), VictimOf(kind, op))
    requires Open(Lookup(store, k), op.now) == Open(Window(kind, events, k, width), op.now)
    ensures var after := Incremented(Evicted(store, VictimOf(kind, op)), KeyOf(kind, op), op.now, width);
            var w := Window(kind, events + [op], k, width);
            Open(Lookup(after, k), op.now) == Open(w, op.now) &&
            (k == KeyOf(kind, op) ==> w.Some? && Lookup(after, k) == w && op.now < w.value.resetAt)
  {
    assert (events + [op])[..|events|] == events;
  }

  /** Evicting the victim and counting a failure closes, opens or extends the same windows in the
      store and in the events. */
  lemma CountAgrees(kind: Kind, cfg: Config, store: Store, events: seq<Op>, op: Op)
    requires Positive(cfg) && op.FailOp? && Victim(store, KeyOf(kind, op), VictimOf(kind, op))
    requires Shows(kind, store, events, cfg.window, op.now)
    ensures var after := Incremented(Evicted(store, VictimOf(kind, op)), KeyOf(kind, op), op.now, cfg.window);
            Shows(kind, after, events + [op], cfg.window, op.now) &&
            ReachedBy(after, KeyOf(kind, op), Limit(kind, cfg), op.now, kind) ==
              VerdictOn(kind, cfg, events + [op], KeyOf(kind, op), op.now)
  {
    var key, width := KeyOf(kind, op), cfg.window;
    var after := Incremented(Evicted(store, VictimOf(kind, op)), key, op.now, width);
    forall k | k != "" ensures Open(Lookup(after, k), op.now) == Open(Window(kind, events + [op], k, width), op.now) {
      assert Open(Lookup(store, k), op.now) == Open(Window(kind, events, k, width), op.now);
      CountsKey(kind, store, events, op, width, k);
    }
    if key != "" {
      assert Open(Lookup(store, key), op.now) == Open(Window(kind, events, key, width), op.now);
      CountsKey(kind, store, events, op, width, key);
    }
  }

  lemma FailAgrees(cfg: Config, s: State, events: seq<Op>, clock: int, op: Op)
    requires Positive(cfg) && Agree(cfg, s, events, clock) && op.FailOp? && Can(s, clock, op)
    ensures Do(cfg, s, op).1 == Reference(cfg, events, op)
    ensures Agree(cfg, Do(cfg, s, op).0, events + [op], op.now)
  {
    MaintainedAgrees(cfg, s, events, clock, op.now);
    var m := Maintained(s, op.now);
    CountAgrees(Ip, cfg, m.ip, events, op);
    CountAgrees(Username, cfg, m.user, events, op);
  }

  lemma SuccessAgrees(cfg: Config, s: State, events: seq<Op>, clock: int, op: Op)
    requires Agree(cfg, s, events, clock) && op.SuccessOp?
    ensures Agree(cfg, Do(cfg, s, op).0, events + [op], clock)
  {
    SilentEvent(Ip, s.ip, events, op, cfg.window, clock);
    var after := Do(cfg, s, op).0;
    forall key | key != ""
      ensures Open(Lookup(after.user, key), clock) == Open(Window(Username, events + [op], key, cfg.window), clock)
    {
      assert Open(Lookup(s.user, key), clock) == Open(Window(Username, events, key, cfg.window), clock);
      assert (events + [op])[..|events|] == events;
    }
  }

  /** One operation decides as the events do, and the state still shows what the events tell. */
  lemma OpAgrees(cfg: Config, s: State, events: seq<Op>, clock: int, op: Op)
    requires Positive(cfg) && Agree(cfg, s, events, clock) && Can(s, clock, op)
    ensures Do(cfg, s, op).1 == Reference(cfg, events, op)
    ensures Agree(cfg, Do(cfg, s, op).0, events + [op], Clock(op, clock))
  {
    match op
    case CheckOp(_, _, _) => CheckAgrees(cfg, s, events, clock, op);
    case FailOp(_, _, _, _, _) => FailAgrees(cfg, s, events, clock, op);
    case SuccessOp(_) => SuccessAgrees(cfg, s, events, clock, op);
  }

  lemma {:induction false} RefinesFrom(cfg: Config, s: State, events: seq<Op>, clock: int, ops: seq<Op>)
    requires Positive(cfg) && Agree(cfg, s, events, clock) && Possible(cfg, s, clock, ops)
    ensures Decisions(cfg, s, ops) == References(cfg, events, ops)
    ensures Agree(cfg, Ends(cfg, s, ops), events + ops, LastClock(clock, ops))
    decreases |ops|
  {
    if ops == [] {
      assert events + ops == events;
    } else {
      var op := ops[0];
      OpAgrees(cfg, s, events, clock, op);
      RefinesFrom(cfg, Do(cfg, s, op).0, events + [op], Clock(op, clock), ops[1..]);
      assert events + [op] + ops[1..] == events + ops;
    }
  }

  /** Main result: from an empty limiter, under a clock that does not run back, every decision of
      every run (whether, by which bucket and for how long) is that of the limiter that keeps all
      events and never deletes anything. Lazy deletion and sweeping are not observable at all, and
      of an eviction only that it closes the window of its victim; while the stores have room there
      is no victim. */
  lemma Refines(cfg: Config, clock: int, ops: seq<Op>)
    requires Positive(cfg) && Possible(cfg, EMPTY, clock, ops)
    ensures Decisions(cfg, EMPTY, ops) == References(cfg, [], ops)
  {
    RefinesFrom(cfg, EMPTY, [], clock, ops);
  }

  // ---------------------------------------------------------------- bounds over runs

  /** In every state, with clock readings in any order: a blocked decision waits exactly for the rest of
      an open bucket at its limit, so the one-second fallback is never used. */
  lemma NoFallback(cfg: Config, s: State, op: Op)
    requires Positive(cfg) && !op.SuccessOp?
    ensures WaitsForBucket(cfg, Do(cfg, s, op).0, op.ip, op.user, op.now, Do(cfg, s, op).1)
  {
    match op
    case CheckOp(ip, user, now) => CheckWaits(cfg, s, ip, user, now);
    case FailOp(ip, user, now, v, w) => FailWaits(cfg, s, ip, user, now, v, w);
  }

  ghost predicate Fair(cfg: Config, s: State, op: Op) {
    op.SuccessOp? || FairRetry(cfg, Do(cfg, s, op).0, op.ip, op.user, op.now, Do(cfg, s, op).1)
  }

  /** In every run, evictions included, the stores stay within the cap, and every blocked decision
      waits exactly for the rest of an open bucket at its limit, more than nothing and at most one
      window; the one-second fallback is never used. */
  lemma {:induction false} RunBounds(cfg: Config, s: State, clock: int, ops: seq<Op>)
    requires Positive(cfg) && WithinCap(s) && StatesRecent(cfg, s, clock) && Possible(cfg, s, clock, ops)
    ensures |Ends(cfg, s, ops).ip| <= 50000 && |Ends(cfg, s, ops).user| <= 50000
    ensures forall i :: 0 <= i < |ops| ==> Fair(cfg, Ends(cfg, s, ops[..i]), ops[i])
    decreases |ops|
  {
    if ops != [] {
      var op, rest := ops[0], ops[1..];
      match op {
        case CheckOp(ip, user, now) => CheckBounds(cfg, s, ip, user, clock, now);
        case FailOp(ip, user, now, v, w) => FailBounds(cfg, s, ip, user, clock, now, v, w);
        case SuccessOp(user) => SmallerMap(Succeed(s, user).user, s.user);
      }
      var next := Do(cfg, s, op).0;
      RunBounds(cfg, next, Clock(op, clock), rest);
      forall i | 0 <= i < |ops| ensures Fair(cfg, Ends(cfg, s, ops[..i]), ops[i]) {
        if i > 0 {
          assert ops[..i][0] == op && ops[..i][1..] == rest[..i - 1];
          assert Fair(cfg, Ends(cfg, next, rest[..i - 1]), rest[i - 1]);
        }
      }
    }
  }

  /** The same for every run from the empty limiter. */
  lemma BoundsFromStart(cfg: Config, clock: int, ops: seq<Op>)
    requires Positive(cfg) && Possible(cfg, EMPTY, clock, ops)
    ensures |Ends(cfg, EMPTY, ops).ip| <= 50000 && |Ends(cfg, EMPTY, ops).user| <= 50000
    ensures forall i :: 0 <= i < |ops| ==> Fair(cfg, Ends(cfg, EMPTY, ops[..i]), ops[i])
  {
    RunBounds(cfg, EMPTY, clock, ops);
  }

  // ---------------------------------------------------------------- waiting as told

  /** What later events make of a window that ends at a known time: it is still the last one, or it
      was closed, or there is a new one. */
  datatype Since = Old | Closed | Anew(window: Bucket)

  function After(kind: Kind, ops: seq<Op>, key: string, end: int, width: int): Since {
    if ops == [] then Old
    else AfterOne(kind, After(kind, ops[..|ops| - 1], key, end, width), ops[|ops| - 1], key, end, width)
  }

  function AfterOne(kind: Kind, before: Since, op: Op, key: string, end: int, width: int): Since {
    match op
    case CheckOp(_, _, _) => before
    case SuccessOp(user) => if kind.Username? && user == key then Closed else before
    case FailOp(_, _, now, _, _) =>
      if VictimOf(kind, op) == Some(key) then Closed
      else if KeyOf(kind, op) != key then before
      else
        match before
        case Old => if now < end then Old else Anew(Bucket(1, now + width))
        case Closed => Anew(Bucket(1, now + width))
        case Anew(w) => Anew(if now < w.resetAt then Bucket(w.failures + 1, w.resetAt) else Bucket(1, now + width))
  }

  ghost predicate Continues(w: Option<Bucket>, since: Since, end: int) {
    match since
    case Old => w.Some? && w.value.resetAt == end
    case Closed => w == None
    case Anew(window) => w == Some(window)
  }

  /** What happened since tells the window of the whole log. */
  lemma {:induction false} AfterContinues(kind: Kind, events: seq<Op>, ops: seq<Op>, key: string, end: int, width: int)
    requires Continues(Window(kind, events, key, width), Old, end)
    ensures Continues(Window(kind, events + ops, key, width), After(kind, ops, key, end, width), end)
  {
    if ops == [] {
      assert events + ops == events;
    } else {
      var k := |ops| - 1;
      AfterContinues(kind, events, ops[..k], key, end, width);
      var log := events + ops;
      assert log[..|log| - 1] == events + ops[..k] && log[|log| - 1] == ops[k];
    }
  }

  /** The key of the bucket that blocked an operation. */
  function BlockedKey(op: Op, d: Decision): string
    requires d.Blocked? && !op.SuccessOp?
  {
    KeyOf(d.bucket, op)
  }

  /** A blocked operation leaves a window that ends at the advertised time. */
  lemma BlockedEnds(cfg: Config, events: seq<Op>, op: Op)
    requires !op.SuccessOp? && Reference(cfg, events, op).Blocked?
    ensures var d := Reference(cfg, events, op);
            BlockedKey(op, d) != "" && d.retryAfter > 0 &&
            Continues(Window(d.bucket, events + [op], BlockedKey(op, d), cfg.window), Old, op.now + d.retryAfter)
  {
    assert (events + [op])[..|events|] == events;
  }

  /** Nothing that gives the key a new window: no failure of it at or after the end, no success of
      it, no eviction. */
  ghost predicate Quiet(kind: Kind, key: string, end: int, op: Op) {
    match op
    case CheckOp(_, _, _) => true
    case FailOp(_, _, now, _, _) => VictimOf(kind, op) != Some(key) && (KeyOf(kind, op) == key ==> now < end)
    case SuccessOp(user) => kind.Username? ==> user != key
  }

  lemma {:induction false} OldIffQuiet(kind: Kind, ops: seq<Op>, key: string, end: int, width: int)
    ensures After(kind, ops, key, end, width) == Old <==> forall o :: o in ops ==> Quiet(kind, key, end, o)
  {
    if ops != [] {
      var k := |ops| - 1;
      OldIffQuiet(kind, ops[..k], key, end, width);
      OneIffQuiet(kind, After(kind, ops[..k], key, end, width), ops[k], key, end, width);
      assert ops == ops[..k] + [ops[k]];
      assert forall o :: o in ops <==> o in ops[..k] || o == ops[k];
    }
  }

  lemma OneIffQuiet(kind: Kind, before: Since, op: Op, key: string, end: int, width: int)
    ensures AfterOne(kind, before, op, key, end, width) == Old <==> before == Old && Quiet(kind, key, end, op)
  {}

  /** Nothing since gave the blocked key a new window. */
  ghost predicate Undisturbed(op: Op, d: Decision, ops: seq<Op>)
    requires d.Blocked? && !op.SuccessOp?
  {
    forall o :: o in ops ==> Quiet(d.bucket, BlockedKey(op, d), op.now + d.retryAfter, o)
  }

  /** A run before, a blocked operation, a run after it, and a check of the blocked key when the whole
      seconds that were announced for the decision have passed. */
  ghost predicate ComesBack(cfg: Config, clock: int, before: seq<Op>, op: Op, ops: seq<Op>, back: Op, seconds: int) {
    var s := Ends(cfg, EMPTY, before);
    var (after, d) := Do(cfg, s, op);
    Positive(cfg) && Possible(cfg, EMPTY, clock, before) && Can(s, LastClock(clock, before), op) &&
    !op.SuccessOp? && d.Blocked? && Possible(cfg, after, op.now, ops) &&
    back.CheckOp? && Can(Ends(cfg, after, ops), LastClock(op.now, ops), back) &&
    KeyOf(d.bucket, back) == BlockedKey(op, d) && Covers(seconds, d.retryAfter) && back.now >= op.now + seconds * SECOND
  }

  /** The decision on whoever comes back. */
  function Again(cfg: Config, before: seq<Op>, op: Op, ops: seq<Op>, back: Op): Decision {
    Do(cfg, Ends(cfg, Do(cfg, Ends(cfg, EMPTY, before), op).0, ops), back).1
  }

  function First(cfg: Config, before: seq<Op>, op: Op): Decision {
    Do(cfg, Ends(cfg, EMPTY, before), op).1
  }

  /** What happened to the blocked key since, by its advertised end. */
  function Meanwhile(cfg: Config, op: Op, d: Decision, ops: seq<Op>): Since
    requires d.Blocked? && !op.SuccessOp?
  {
    After(d.bucket, ops, BlockedKey(op, d), op.now + d.retryAfter, cfg.window)
  }

  /** A window at or after the end of the old one blocks only if it is new, open and at its limit. */
  lemma VerdictSince(w: Option<Bucket>, since: Since, end: int, max: int, now: int, kind: Kind)
    requires Continues(w, since, end) && now >= end
    ensures Verdict(w, max, now, kind).Blocked? <==>
              since.Anew? && now < since.window.resetAt && since.window.failures >= max
  {}

  /** The address is looked at first: it decides alone when it blocks. */
  predicate AddressPasses(cfg: Config, events: seq<Op>, kind: Kind, op: Op)
    requires !op.SuccessOp?
  {
    kind.Username? ==> VerdictOn(Ip, cfg, events, op.ip, op.now) == Allowed
  }

  lemma ReferenceByBucket(cfg: Config, events: seq<Op>, op: Op, kind: Kind)
    requires op.CheckOp?
    ensures var d := Reference(cfg, events, op);
            (d.Blocked? && d.bucket == kind) <==>
              (VerdictOn(kind, cfg, events, KeyOf(kind, op), op.now).Blocked? && AddressPasses(cfg, events, kind, op))
  {}

  /** There is a new window, still open and at its limit. */
  predicate Reopened(cfg: Config, kind: Kind, since: Since, now: int) {
    since.Anew? && now < since.window.resetAt && since.window.failures >= Limit(kind, cfg)
  }

  lemma BackIsReference(cfg: Config, clock: int, before: seq<Op>, op: Op, ops: seq<Op>, back: Op, seconds: int)
    requires ComesBack(cfg, clock, before, op, ops, back, seconds)
    ensures First(cfg, before, op) == Reference(cfg, before, op)
    ensures Again(cfg, before, op, ops, back) == Reference(cfg, before + [op] + ops, back)
  {
    var s, c := Ends(cfg, EMPTY, before), LastClock(clock, before);
    RefinesFrom(cfg, EMPTY, [], clock, before);
    assert [] + before == before;
    OpAgrees(cfg, s, before, c, op);
    var after := Do(cfg, s, op).0;
    RefinesFrom(cfg, after, before + [op], op.now, ops);
    CheckAgrees(cfg, Ends(cfg, after, ops), before + [op] + ops, LastClock(op.now, ops), back);
  }

  /** Exactly when Retry-After is not honoured: whoever was blocked and comes back after the
      advertised seconds is blocked by that bucket again if and only if, meanwhile, the key was
      given a new window that is still open and at its limit, and, for a user name, the address that
      comes back with it is not blocked by its own window in the log. A new window is opened by a
      failure at or after the advertised end, or by one at any time after a success of that user name
      or an eviction of the key. */
  lemma RetryAfterExactly(cfg: Config, clock: int, before: seq<Op>, op: Op, ops: seq<Op>, back: Op, seconds: int)
    requires ComesBack(cfg, clock, before, op, ops, back, seconds)
    ensures var d, again := First(cfg, before, op), Again(cfg, before, op, ops, back);
            (again.Blocked? && again.bucket == d.bucket) <==>
              (Reopened(cfg, d.bucket, Meanwhile(cfg, op, d, ops), back.now) &&
               AddressPasses(cfg, before + [op] + ops, d.bucket, back))
  {
    BackIsReference(cfg, clock, before, op, ops, back, seconds);
    BlockedAgainIff(cfg, before, op, First(cfg, before, op), ops, back, Again(cfg, before, op, ops, back), seconds);
  }

  /** The same of the limiter that keeps all events. */
  lemma BlockedAgainIff(cfg: Config, events: seq<Op>, op: Op, d: Decision, ops: seq<Op>, back: Op, again: Decision,
                        seconds: int)
    requires !op.SuccessOp? && d == Reference(cfg, events, op) && d.Blocked?
    requires back.CheckOp? && again == Reference(cfg, events + [op] + ops, back)
    requires KeyOf(d.bucket, back) == BlockedKey(op, d) && Covers(seconds, d.retryAfter)
    requires back.now >= op.now + seconds * SECOND
    ensures (again.Blocked? && again.bucket == d.bucket) <==>
              (Reopened(cfg, d.bucket, Meanwhile(cfg, op, d, ops), back.now) &&
               AddressPasses(cfg, events + [op] + ops, d.bucket, back))
    ensures Undisturbed(op, d, ops) ==> !(again.Blocked? && again.bucket == d.bucket)
  {
    OldIffQuiet(d.bucket, ops, BlockedKey(op, d), op.now + d.retryAfter, cfg.window);
    BlockedEnds(cfg, events, op);
    var log, key, end := events + [op] + ops, BlockedKey(op, d), op.now + d.retryAfter;
    AfterContinues(d.bucket, events + [op], ops, key, end, cfg.window);
    ReferenceByBucket(cfg, log, back, d.bucket);
    var w, since := Window(d.bucket, log, key, cfg.window), Meanwhile(cfg, op, d, ops);
    VerdictSince(w, since, end, Limit(d.bucket, cfg), back.now, d.bucket);
  }

  /** Retry-After is honoured if meanwhile nothing gave the key a new window, whatever else went on. */
  lemma RetryAfterIsHonoured(cfg: Config, clock: int, before: seq<Op>, op: Op, ops: seq<Op>, back: Op, seconds: int)
    requires ComesBack(cfg, clock, before, op, ops, back, seconds)
    requires Undisturbed(op, First(cfg, before, op), ops)
    ensures var d, again := First(cfg, before, op), Again(cfg, before, op, ops, back);
            !(again.Blocked? && again.bucket == d.bucket)
  {
    BackIsReference(cfg, clock, before, op, ops, back, seconds);
    BlockedAgainIff(cfg, before, op, First(cfg, before, op), ops, back, Again(cfg, before, op, ops, back), seconds);
  }

  // ---------------------------------------------------------------- what can move the end

  /** A failure of one user name that gets a first window, by address nobody. */
  function Attempt(user: string, now: int, evicts: Option<string>): Op {
    FailOp("", user, now, None, evicts)
  }

  ghost predicate Follows(cfg: Config, s: State, clock: int, op: Op, next: State) {
    Can(s, clock, op) && Do(cfg, s, op).0 == next
  }

  lemma StepFrom(cfg: Config, s: State, clock: int, op: Op, next: State, rest: seq<Op>)
    requires Follows(cfg, s, clock, op, next) && Possible(cfg, next, Clock(op, clock), rest)
    ensures Possible(cfg, s, clock, [op] + rest) && Ends(cfg, s, [op] + rest) == Ends(cfg, next, rest)
    ensures LastClock(clock, [op] + rest) == LastClock(Clock(op, clock), rest)
  {
    var ops := [op] + rest;
    assert ops[0] == op && ops[1..] == rest;
  }

  /** A limiter without address buckets, with these user names and one more that failed once. */
  function Blocking(cfg: Config, others: Store, user: string, operations: nat, at: int): State {
    State(map[], others[user := Bucket(1, at + cfg.window)], operations)
  }

  /** One failure is enough, seconds are whole, and there is time for more than one. */
  ghost predicate Strict(cfg: Config) {
    Positive(cfg) && cfg.userMax == 1 && cfg.window > 2 * SECOND && cfg.window % SECOND == 0
  }

  /** The default window with one failure allowed. */
  lemma StrictLimits()
    ensures Strict(Config(900 * SECOND, 30, 1))
  {}

  lemma FirstFailure(cfg: Config, s: State, user: string, at: int, victim: Option<string>)
    requires Strict(cfg) && s.ip == map[] && NoSweepNext(s.operations) && user != "" && user !in s.user
    requires Victim(s.user, user, victim)
    ensures Victims(s, "", user, at, None, victim)
    ensures Do(cfg, s, Attempt(user, at, victim)) ==
              (Blocking(cfg, Evicted(s.user, victim), user, s.operations + 1, at), Blocked(Username, cfg.window))
  {
    NothingSwept(s, at);
    var users := Incremented(Evicted(s.user, victim), user, at, cfg.window);
    assert users == Evicted(s.user, victim)[user := Bucket(1, at + cfg.window)];
    assert ReachedBy(users, user, 1, at, Username) == Blocked(Username, cfg.window);
  }

  /** The next operation is not one that sweeps, and the counter is far from wrapping. */
  predicate NoSweepNext(operations: nat) {
    operations < 2 * MAX_TRACKED && (operations + 1) % SWEEP_EVERY != 0
  }

  lemma NothingSwept(s: State, now: int)
    requires NoSweepNext(s.operations)
    ensures Maintained(s, now) == s.(operations := s.operations + 1)
  {}

  lemma StillBlocked(cfg: Config, others: Store, user: string, operations: nat)
    requires Strict(cfg) && user != "" && NoSweepNext(operations)
    ensures var s := Blocking(cfg, others, user, operations, cfg.window - 1);
            Do(cfg, s, CheckOp("", user, cfg.window)).1 == Blocked(Username, cfg.window - 1)
  {
    NothingSwept(Blocking(cfg, others, user, operations, cfg.window - 1), cfg.window);
  }

  /** A success of a blocked user name (of an attempt that was already under way) followed by a
      failure before the advertised time opens a window that ends later. */
  lemma SuccessMovesTheEnd(cfg: Config, user: string)
    requires Strict(cfg) && user != ""
    ensures var op, ops := Attempt(user, 0, None), [SuccessOp(user), Attempt(user, cfg.window - 1, None)];
            var back := CheckOp("", user, cfg.window);
            ComesBack(cfg, 0, [], op, ops, back, cfg.window / SECOND) &&
            First(cfg, [], op) == Blocked(Username, cfg.window) &&
            Again(cfg, [], op, ops, back) == Blocked(Username, cfg.window - 1)
  {
    var op, again := Attempt(user, 0, None), Attempt(user, cfg.window - 1, None);
    var blocked, cleared := Blocking(cfg, map[], user, 1, 0), State(map[], map[], 1);
    var end := Blocking(cfg, map[], user, 2, cfg.window - 1);
    FirstFailure(cfg, EMPTY, user, 0, None);
    ClearedAndBack(cfg, user, blocked, cleared, end);
    StillBlocked(cfg, map[], user, 2);
    RetryOfWindow(cfg);
    assert Ends(cfg, EMPTY, []) == EMPTY && LastClock(0, []) == 0;
    BackFrom(cfg, [], EMPTY, op, blocked, [SuccessOp(user), again], end, CheckOp("", user, cfg.window));
  }

  lemma ClearedAndBack(cfg: Config, user: string, blocked: State, cleared: State, end: State)
    requires Strict(cfg) && user != "" && blocked == Blocking(cfg, map[], user, 1, 0)
    requires cleared == State(map[], map[], 1) && end == Blocking(cfg, map[], user, 2, cfg.window - 1)
    ensures var ops := [SuccessOp(user), Attempt(user, cfg.window - 1, None)];
            Possible(cfg, blocked, 0, ops) && Ends(cfg, blocked, ops) == end && LastClock(0, ops) == cfg.window - 1
  {
    assert Succeed(blocked, user) == cleared;
    FirstFailure(cfg, cleared, user, cfg.window - 1, None);
    var again := Attempt(user, cfg.window - 1, None);
    StepFrom(cfg, cleared, 0, again, end, []);
    StepFrom(cfg, blocked, 0, SuccessOp(user), cleared, [again]);
    assert [again] + [] == [again] && [SuccessOp(user)] + [again] == [SuccessOp(user), again];
  }

  lemma BackFrom(cfg: Config, before: seq<Op>, s: State, op: Op, after: State, ops: seq<Op>, end: State, back: Op)
    requires Possible(cfg, EMPTY, 0, before) && Ends(cfg, EMPTY, before) == s && LastClock(0, before) == 0
    requires Positive(cfg) && op.FailOp? && op.now == 0 && Can(s, 0, op) && Possible(cfg, after, 0, ops)
    requires Do(cfg, s, op) == (after, Blocked(Username, cfg.window)) && Ends(cfg, after, ops) == end
    requires back.CheckOp? && LastClock(0, ops) <= back.now && back.user == op.user
    requires Covers(cfg.window / SECOND, cfg.window) && back.now >= cfg.window / SECOND * SECOND
    ensures ComesBack(cfg, 0, before, op, ops, back, cfg.window / SECOND)
    ensures First(cfg, before, op) == Blocked(Username, cfg.window)
    ensures Again(cfg, before, op, ops, back) == Do(cfg, end, back).1
  {}

  /** So does an eviction of the key: after failures of 49,999 other names, a failure of a new name may
      evict the blocked one, whose next failure before the advertised time then opens a window
      although there was no success and no failure at or after the end. */
  lemma EvictionMovesTheEnd(cfg: Config, user: string, newcomer: string) returns (before: seq<Op>)
    requires Strict(cfg) && user != "" && newcomer != "" && user != newcomer
    ensures |before| == MAX_TRACKED - 1
    ensures var op := Attempt(user, 0, None);
            var ops := [Attempt(newcomer, 1, Some(user)), Attempt(user, cfg.window - 1, Some(newcomer))];
            var back := CheckOp("", user, cfg.window);
            ComesBack(cfg, 0, before, op, ops, back, cfg.window / SECOND) &&
            First(cfg, before, op) == Blocked(Username, cfg.window) &&
            Again(cfg, before, op, ops, back) == Blocked(Username, cfg.window - 1)
  {
    var n := MAX_TRACKED - 1;
    var others;
    before, others := Crowd(cfg, n, |user| + |newcomer|);
    EvictionAfter(cfg, before, others, user, newcomer, n);
  }

  lemma EvictionAfter(cfg: Config, before: seq<Op>, others: Store, user: string, newcomer: string, n: nat)
    requires Strict(cfg) && user != "" && newcomer != "" && user != newcomer && n == MAX_TRACKED - 1 == |others|
    requires Possible(cfg, EMPTY, 0, before) && Ends(cfg, EMPTY, before) == State(map[], others, n)
    requires LastClock(0, before) == 0 && user !in others && newcomer !in others
    ensures var op := Attempt(user, 0, None);
            var ops := [Attempt(newcomer, 1, Some(user)), Attempt(user, cfg.window - 1, Some(newcomer))];
            var back := CheckOp("", user, cfg.window);
            ComesBack(cfg, 0, before, op, ops, back, cfg.window / SECOND) &&
            First(cfg, before, op) == Blocked(Username, cfg.window) &&
            Again(cfg, before, op, ops, back) == Blocked(Username, cfg.window - 1)
  {
    RetryOfWindow(cfg);
    var s, blocked, ops, end := EvictionSteps(cfg, others, user, newcomer, n);
    BackFrom(cfg, before, s, Attempt(user, 0, None), blocked, ops, end, CheckOp("", user, cfg.window));
  }

  lemma EvictionSteps(cfg: Config, others: Store, user: string, newcomer: string, n: nat)
      returns (s: State, blocked: State, ops: seq<Op>, end: State)
    requires Strict(cfg) && user != "" && newcomer != "" && user != newcomer && n == MAX_TRACKED - 1 == |others|
    requires user !in others && newcomer !in others
    ensures s == State(map[], others, n) && Can(s, 0, Attempt(user, 0, None))
    ensures Do(cfg, s, Attempt(user, 0, None)) == (blocked, Blocked(Username, cfg.window))
    ensures ops == [Attempt(newcomer, 1, Some(user)), Attempt(user, cfg.window - 1, Some(newcomer))]
    ensures Possible(cfg, blocked, 0, ops) && LastClock(0, ops) == cfg.window - 1 && Ends(cfg, blocked, ops) == end
    ensures Do(cfg, end, CheckOp("", user, cfg.window)).1 == Blocked(Username, cfg.window - 1)
  {
    s, blocked := State(map[], others, n), Blocking(cfg, others, user, n + 1, 0);
    end := Blocking(cfg, others, user, n + 3, cfg.window - 1);
    StillBlocked(cfg, others, user, n + 3);
    FirstFailure(cfg, s, user, 0, None);
    ops := EvictedAndBack(cfg, others, user, newcomer, n + 1, blocked, end);
  }

  lemma RetryOfWindow(cfg: Config)
    requires Strict(cfg)
    ensures cfg.window / SECOND * SECOND == cfg.window && Covers(cfg.window / SECOND, cfg.window)
  {}

  /** One failure evicts another name, whose own failure evicts that one. */
  lemma EvictedAndBack(cfg: Config, others: Store, user: string, newcomer: string, n: nat, blocked: State, end: State)
      returns (ops: seq<Op>)
    requires Strict(cfg) && user != "" && newcomer != "" && user != newcomer && NoSweepNext(n) && NoSweepNext(n + 1)
    requires |others| == MAX_TRACKED - 1 && user !in others && newcomer !in others
    requires blocked == Blocking(cfg, others, user, n, 0) && end == Blocking(cfg, others, user, n + 2, cfg.window - 1)
    ensures ops == [Attempt(newcomer, 1, Some(user)), Attempt(user, cfg.window - 1, Some(newcomer))]
    ensures Possible(cfg, blocked, 0, ops) && LastClock(0, ops) == cfg.window - 1 && Ends(cfg, blocked, ops) == end
  {
    var first, second := Attempt(newcomer, 1, Some(user)), Attempt(user, cfg.window - 1, Some(newcomer));
    var evicted := Replaced(cfg, others, newcomer, n + 1, 1, user, cfg.window - 1, end);
    StepFrom(cfg, evicted, 1, second, end, []);
    var start := Replaced(cfg, others, user, n, 0, newcomer, 1, evicted);
    var rest := [second] + [];
    StepFrom(cfg, start, 0, first, evicted, rest);
    ops := [first] + rest;
  }

  /** In a full store the failure of one name evicts another. */
  lemma Replaced(cfg: Config, others: Store, out: string, operations: nat, at: int, name: string, now: int, next: State)
      returns (s: State)
    requires Strict(cfg) && |others| == MAX_TRACKED - 1 && out !in others && name !in others
    requires NoSweepNext(operations) && name != "" && name != out && at <= now
    requires next == Blocking(cfg, others, name, operations + 1, now)
    ensures s == Blocking(cfg, others, out, operations, at)
    ensures Follows(cfg, s, at, Attempt(name, now, Some(out)), next)
  {
    s := Blocking(cfg, others, out, operations, at);
    FullByOne(others, out, Bucket(1, at + cfg.window));
    EvictedBack(others, out, Bucket(1, at + cfg.window));
    FirstFailure(cfg, s, name, now, Some(out));
  }

  lemma EvictedBack(others: Store, key: string, b: Bucket)
    requires key !in others
    ensures Evicted(others[key := b], Some(key)) == others
  {}

  lemma FullByOne(others: Store, key: string, b: Bucket)
    requires key !in others
    ensures |others[key := b]| == |others| + 1
  {
    assert others[key := b].Keys == others.Keys + {key};
    assert |others[key := b]| == |others[key := b].Keys| && |others| == |others.Keys|;
  }

  lemma {:induction false} RunSnoc(cfg: Config, s: State, clock: int, ops: seq<Op>, op: Op)
    requires Possible(cfg, s, clock, ops) && Can(Ends(cfg, s, ops), LastClock(clock, ops), op)
    ensures Possible(cfg, s, clock, ops + [op]) && LastClock(clock, ops + [op]) == Clock(op, LastClock(clock, ops))
    ensures Ends(cfg, s, ops + [op]) == Do(cfg, Ends(cfg, s, ops), op).0
    decreases |ops|
  {
    if ops == [] {
      StepFrom(cfg, s, clock, op, Do(cfg, s, op).0, []);
      assert ops + [op] == [op] + [];
    } else {
      RunSnoc(cfg, Do(cfg, s, ops[0]).0, Clock(ops[0], clock), ops[1..], op);
      StepFrom(cfg, s, clock, ops[0], Do(cfg, s, ops[0]).0, ops[1..] + [op]);
      assert ops + [op] == [ops[0]] + (ops[1..] + [op]);
    }
  }

  /** Failures of n names longer than `base`, all at time zero: each of them is tracked. */
  lemma {:induction false} Crowd(cfg: Config, n: nat, base: nat) returns (before: seq<Op>, others: Store)
    requires Strict(cfg) && n < MAX_TRACKED
    ensures |before| == n && Possible(cfg, EMPTY, 0, before) && LastClock(0, before) == 0
    ensures Ends(cfg, EMPTY, before) == State(map[], others, n) && |others| == n
    ensures forall k :: k in others ==> base < |k| <= base + n && others[k] == Bucket(1, cfg.window)
  {
    before, others := [], map[];
    if n > 0 {
      var fewer, store := Crowd(cfg, n - 1, base);
      var name := seq(base + n, _ => 'x');
      OneMoreName(cfg, store, n - 1, name);
      RunSnoc(cfg, EMPTY, 0, fewer, Attempt(name, 0, None));
      FullByOne(store, name, Bucket(1, cfg.window));
      before, others := fewer + [Attempt(name, 0, None)], store[name := Bucket(1, cfg.window)];
    }
  }

  /** At time zero nothing has expired, so that a sweep changes nothing. */
  lemma OneMoreName(cfg: Config, store: Store, n: nat, name: string)
    requires Strict(cfg) && |store| == n < MAX_TRACKED && name != "" && name !in store
    requires forall k :: k in store ==> store[k] == Bucket(1, cfg.window)
    ensures var s := State(map[], store, n);
            Can(s, 0, Attempt(name, 0, None)) &&
            Do(cfg, s, Attempt(name, 0, None)).0 == State(map[], store[name := Bucket(1, cfg.window)], n + 1)
  {
    var s := State(map[], store, n);
    assert Swept(store, 0) == store;
    assert Maintained(s, 0) == State(map[], store, n + 1);
  }
}
