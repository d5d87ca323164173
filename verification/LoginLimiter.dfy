/** The login rate limiter: two stores of failure buckets, by client address and by user name,
    with lazy deletion, a periodic sweep and eviction at a cap. Times are integer nanoseconds. */
module LoginLimiter {
  import opened Text
  import opened Collections

  const MAX_TRACKED: nat := 50000
  const SECOND: int := 1_000_000_000
  const SWEEP_EVERY: nat := 64
  const COUNTER_SPAN: nat := 0x1_0000_0000_0000_0000

  /** Limits after the defaults were filled in: all positive. */
  datatype Config = Config(window: int, ipMax: int, userMax: int)

  predicate Positive(cfg: Config) {
    cfg.window > 0 && cfg.ipMax > 0 && cfg.userMax > 0
  }

  function WithDefaults(cfg: Config): (r: Config)
    ensures Positive(r)
    ensures Positive(cfg) ==> r == cfg
    ensures r.window == (if cfg.window > 0 then cfg.window else 900 * SECOND)
    ensures (cfg.ipMax <= 0 ==> r.ipMax == 30) && (cfg.userMax <= 0 ==> r.userMax == 5)
    ensures (cfg.ipMax > 0 ==> r.ipMax == cfg.ipMax) && (cfg.userMax > 0 ==> r.userMax == cfg.userMax)
  {
    Config(if cfg.window <= 0 then 15 * 60 * SECOND else cfg.window,
           if cfg.ipMax <= 0 then 30 else cfg.ipMax,
           if cfg.userMax <= 0 then 5 else cfg.userMax)
  }

  datatype Bucket = Bucket(failures: nat, resetAt: int)

  type Store = map<string, Bucket>

  datatype Kind = Ip | Username

  datatype Decision = Allowed | Blocked(bucket: Kind, retryAfter: int)

  datatype State = State(ip: Store, user: Store, operations: nat)

  // ---------------------------------------------------------------- what each operation computes

  predicate Expired(b: Bucket, now: int) {
    now >= b.resetAt
  }

  function Swept(store: Store, now: int): Store {
    map k | k in store && !Expired(store[k], now) :: store[k]
  }

  function Maintained(s: State, now: int): State {
    var n := (s.operations + 1) % COUNTER_SPAN;
    if n % SWEEP_EVERY != 0 then s.(operations := n) else State(Swept(s.ip, now), Swept(s.user, now), n)
  }

  function PositiveRemaining(resetAt: int, now: int): int {
    if resetAt - now <= 0 then SECOND else resetAt - now
  }

  /** A lookup forgets the key's own bucket when it has expired. */
  function Forgotten(store: Store, key: string, now: int): Store {
    if key in store && key != "" && Expired(store[key], now) then store - {key} else store
  }

  function BlockedBy(store: Store, key: string, max: int, now: int, kind: Kind): Decision {
    if key == "" || key !in store || Expired(store[key], now) || store[key].failures < max then Allowed
    else Blocked(kind, PositiveRemaining(store[key].resetAt, now))
  }

  /** Checking: the address first, and the user name only when the address is not blocked. */
  function Check(cfg: Config, s: State, ip: string, user: string, now: int): (State, Decision) {
    var m := Maintained(s, now);
    var byIp := BlockedBy(m.ip, ip, cfg.ipMax, now, Ip);
    var m1 := m.(ip := Forgotten(m.ip, ip, now));
    if byIp.Blocked? then (m1, byIp)
    else (m1.(user := Forgotten(m.user, user, now)), BlockedBy(m.user, user, cfg.userMax, now, Username))
  }

  /** Nothing is evicted for this key. */
  predicate Room(store: Store, key: string) {
    key == "" || key in store || |store| < MAX_TRACKED
  }

  function Evicted(store: Store, victim: Option<string>): Store {
    if victim.None? then store else store - {victim.value}
  }

  function Counted(store: Store, key: string, now: int, window: int): Bucket {
    if key in store && !Expired(store[key], now) then Bucket(store[key].failures + 1, store[key].resetAt)
    else Bucket(1, now + window)
  }

  function Incremented(store: Store, key: string, now: int, window: int): Store {
    if key == "" then store else store[key := Counted(store, key, now, window)]
  }

  /** A counted failure that reaches the limit blocks. */
  function ReachedBy(store: Store, key: string, max: int, now: int, kind: Kind): Decision {
    if key == "" || key !in store || store[key].failures < max then Allowed
    else Blocked(kind, PositiveRemaining(store[key].resetAt, now))
  }

  /** Recording a failure in both stores, each of which evicts its victim first if there is one. */
  function Fail(cfg: Config, s: State, ip: string, user: string, now: int,
                ipVictim: Option<string>, userVictim: Option<string>): (State, Decision) {
    var m := Maintained(s, now);
    var ips := Incremented(Evicted(m.ip, ipVictim), ip, now, cfg.window);
    var users := Incremented(Evicted(m.user, userVictim), user, now, cfg.window);
    var byIp := ReachedBy(ips, ip, cfg.ipMax, now, Ip);
    (State(ips, users, m.operations),
     if byIp.Blocked? then byIp else ReachedBy(users, user, cfg.userMax, now, Username))
  }

  /** Success clears the user name and leaves the address alone. */
  function Succeed(s: State, user: string): State {
    if user == "" then s else s.(user := s.user - {user})
  }

  /** There is a victim, an arbitrary key of the store, exactly when the store has no room. */
  predicate Victim(store: Store, key: string, victim: Option<string>) {
    if Room(store, key) then victim.None? else victim.Some? && victim.value in store
  }

  predicate Victims(s: State, ip: string, user: string, now: int, ipVictim: Option<string>,
                    userVictim: Option<string>)
  {
    var m := Maintained(s, now);
    Victim(m.ip, ip, ipVictim) && Victim(m.user, user, userVictim)
  }

  /** The state and decision of recording a failure, for some victims. */
  ghost predicate Failed(cfg: Config, s: State, ip: string, user: string, now: int, after: State, d: Decision) {
    exists v, w :: Victims(s, ip, user, now, v, w) && (after, d) == Fail(cfg, s, ip, user, now, v, w)
  }

  // ---------------------------------------------------------------- the object

  /** Lower-casing works rune by rune, so a name keeps its length. */
  function Lowered(lower: char -> char, s: string): (r: string)
    ensures |r| == |s| && forall i :: 0 <= i < |s| ==> r[i] == lower(s[i])
  {
    if s == "" then "" else [lower(s[0])] + Lowered(lower, s[1..])
  }

  function UserKey(lower: char -> char, username: string): string {
    Lowered(lower, GoTrim(username))
  }

  /** Two spellings are the same name exactly when their trimmed texts agree character by character
      after lower-casing. */
  ghost predicate SameName(lower: char -> char, a: string, b: string) {
    |GoTrim(a)| == |GoTrim(b)| && forall i :: 0 <= i < |GoTrim(a)| ==> lower(GoTrim(a)[i]) == lower(GoTrim(b)[i])
  }

  lemma SameNameIff(lower: char -> char, a: string, b: string)
    ensures UserKey(lower, a) == UserKey(lower, b) <==> SameName(lower, a, b)
  {
    var x, y := GoTrim(a), GoTrim(b);
    if UserKey(lower, a) == UserKey(lower, b) {
      forall i | 0 <= i < |x| ensures lower(x[i]) == lower(y[i]) {
        assert Lowered(lower, x)[i] == Lowered(lower, y)[i];
      }
    }
  }

  lemma SpaceDoesNotMatter(lower: char -> char, before: string, name: string, behind: string)
    requires AllOf(GoSpace, before) && AllOf(GoSpace, behind)
    ensures UserKey(lower, before + name + behind) == UserKey(lower, name)
    ensures GoTrim(before + name + behind) == GoTrim(name)
  {
    TrimSkips(GoSpace, before, name, behind);
  }

  /** All spellings of one name share one bucket: whatever was recorded for one of them decides on the
      others, and a success of one clears it for all. */
  lemma SpellingsAreOne(lower: char -> char, cfg: Config, s: State, ip: string, a: string, b: string, now: int)
    requires SameName(lower, a, b)
    ensures Check(cfg, s, ip, UserKey(lower, a), now) == Check(cfg, s, ip, UserKey(lower, b), now)
    ensures forall after, d :: Failed(cfg, s, ip, UserKey(lower, a), now, after, d) <==>
                               Failed(cfg, s, ip, UserKey(lower, b), now, after, d)
    ensures Succeed(s, UserKey(lower, a)) == Succeed(s, UserKey(lower, b))
  {
    SameNameIff(lower, a, b);
  }

  class LoginRateLimiter {
    const cfg: Config
    const lower: char -> char
    var ip: Store
    var username: Store
    var operations: nat

    constructor (cfg: Config, lower: char -> char)
      ensures this.cfg == WithDefaults(cfg) && this.lower == lower
      ensures Now() == State(map[], map[], 0)
    {
      this.cfg, this.lower := WithDefaults(cfg), lower;
      ip, username, operations := map[], map[], 0;
    }

    function Now(): State
      reads this
    {
      State(ip, username, operations)
    }

    method Maintenance(now: int)
      modifies this
      ensures Now() == Maintained(old(Now()), now)
    {
      operations := (operations + 1) % COUNTER_SPAN;
      if operations % SWEEP_EVERY != 0 {
        return;
      }
      ip := DeleteExpired(ip, now);
      username := DeleteExpired(username, now);
    }

    method CheckLogin(rawIp: string, rawUser: string, now: int) returns (decision: Decision)
      modifies this
      ensures (Now(), decision) == Check(cfg, old(Now()), GoTrim(rawIp), UserKey(lower, rawUser), now)
    {
      var ipKey, userKey := GoTrim(rawIp), UserKey(lower, rawUser);
      Maintenance(now);
      ip, decision := BlockedDecision(ip, ipKey, cfg.ipMax, now, Ip);
      if decision.Blocked? {
        return;
      }
      username, decision := BlockedDecision(username, userKey, cfg.userMax, now, Username);
    }

    method RecordFailure(rawIp: string, rawUser: string, now: int) returns (decision: Decision)
      modifies this
      ensures Failed(cfg, old(Now()), GoTrim(rawIp), UserKey(lower, rawUser), now, Now(), decision)
    {
      var ipKey, userKey := GoTrim(rawIp), UserKey(lower, rawUser);
      ghost var before := Now();
      Maintenance(now);
      ghost var m := Now();
      ghost var v, w;
      ip, v := EnsureCapacity(ip, ipKey);
      username, w := EnsureCapacity(username, userKey);
      var ipBucket, userBucket;
      ip, ipBucket := Increment(ip, ipKey, now, cfg.window);
      username, userBucket := Increment(username, userKey, now, cfg.window);
      if ipKey != "" && ipBucket.failures >= cfg.ipMax {
        decision := Blocked(Ip, PositiveRemaining(ipBucket.resetAt, now));
      } else if userKey != "" && userBucket.failures >= cfg.userMax {
        decision := Blocked(Username, PositiveRemaining(userBucket.resetAt, now));
      } else {
        decision := Allowed;
      }
      assert Victims(before, ipKey, userKey, now, v, w);
      assert ip == Incremented(Evicted(m.ip, v), ipKey, now, cfg.window);
      assert username == Incremented(Evicted(m.user, w), userKey, now, cfg.window);
      ghost var byIp := ReachedBy(ip, ipKey, cfg.ipMax, now, Ip);
      assert decision == if byIp.Blocked? then byIp else ReachedBy(username, userKey, cfg.userMax, now, Username);
      assert (Now(), decision) == Fail(cfg, before, ipKey, userKey, now, v, w);
    }

    method RecordSuccess(rawUser: string)
      modifies this
      ensures Now() == Succeed(old(Now()), UserKey(lower, rawUser))
    {
      var key := UserKey(lower, rawUser);
      if key == "" {
        return;
      }
      username := username - {key};
    }
  }

  /** The sweep: a range over the map that deletes as it goes. */
  method DeleteExpired(store: Store, now: int) returns (kept: Store)
    ensures kept == Swept(store, now)
  {
    kept := store;
    var left := store.Keys;
    while left != {}
      invariant left <= store.Keys
      invariant kept == map k | k in store && (k in left || !Expired(store[k], now)) :: store[k]
      decreases left
    {
      var key :| key in left;
      left := left - {key};
      if !(now < store[key].resetAt) {
        kept := kept - {key};
      }
    }
  }

  method BlockedDecision(store: Store, key: string, max: int, now: int, kind: Kind)
      returns (after: Store, decision: Decision)
    ensures after == Forgotten(store, key, now) && decision == BlockedBy(store, key, max, now, kind)
  {
    after, decision := store, Allowed;
    if key == "" || key !in store {
      return;
    }
    var b := store[key];
    if !(now < b.resetAt) {
      after := store - {key};
      return;
    }
    if b.failures < max {
      return;
    }
    decision := Blocked(kind, PositiveRemaining(b.resetAt, now));
  }

  /** Eviction of whatever key the range over the map yields first. */
  method EnsureCapacity(store: Store, key: string) returns (after: Store, ghost victim: Option<string>)
    ensures Victim(store, key, victim) && after == Evicted(store, victim)
    ensures if Room(store, key) then after == store else |after| == |store| - 1
  {
    after, victim := store, None;
    if key == "" || key in store || |store| < MAX_TRACKED {
      return;
    }
    assert store.Keys != {};
    var any :| any in store.Keys;
    victim := Some(any);
    after := store - {any};
    assert after.Keys == store.Keys - {any};
    assert |after| == |after.Keys| && |store| == |store.Keys|;
  }

  method Increment(store: Store, key: string, now: int, window: int) returns (after: Store, b: Bucket)
    ensures after == Incremented(store, key, now, window)
    ensures key != "" ==> key in after && b == after[key]
  {
    if key == "" {
      return store, Bucket(0, 0);
    }
    if key in store {
      b := store[key];
    }
    if key !in store || !(now < b.resetAt) {
      b := Bucket(0, now + window);
    }
    b := b.(failures := b.failures + 1);
    after := store[key := b];
  }

  // ---------------------------------------------------------------- retry and memory bounds

  /** No bucket is remembered for longer than one window from the last operation. */
  ghost predicate Recent(store: Store, window: int, clock: int) {
    forall k :: k in store ==> store[k].resetAt <= clock + window
  }

  ghost predicate StatesRecent(cfg: Config, s: State, clock: int) {
    Recent(s.ip, cfg.window, clock) && Recent(s.user, cfg.window, clock)
  }

  ghost predicate WithinCap(s: State) {
    |s.ip| <= MAX_TRACKED && |s.user| <= MAX_TRACKED
  }

  function StoreOf(kind: Kind, s: State): Store {
    if kind.Ip? then s.ip else s.user
  }

  function Limit(kind: Kind, cfg: Config): int {
    if kind.Ip? then cfg.ipMax else cfg.userMax
  }

  /** A blocked decision is due to a bucket that is still open and at its limit, and its wait is
      exactly what is left of that bucket; the one-second fallback is not used. */
  ghost predicate WaitsForBucket(cfg: Config, after: State, ip: string, user: string, now: int, d: Decision) {
    d.Blocked? ==>
      var store, key := StoreOf(d.bucket, after), if d.bucket.Ip? then ip else user;
      key in store && store[key].failures >= Limit(d.bucket, cfg) &&
      now < store[key].resetAt && d.retryAfter == store[key].resetAt - now
  }

  /** The same, and the wait is at most a window. */
  ghost predicate FairRetry(cfg: Config, after: State, ip: string, user: string, now: int, d: Decision) {
    WaitsForBucket(cfg, after, ip, user, now, d) && (d.Blocked? ==> d.retryAfter <= cfg.window)
  }

  /** A wait is never empty, so that some whole number of seconds is announced for it. */
  lemma WaitIsPositive(cfg: Config, s: State, ip: string, user: string, now: int, after: State, d: Decision)
    requires (after, d) == Check(cfg, s, ip, user, now) || Failed(cfg, s, ip, user, now, after, d)
    ensures d.Blocked? ==> d.retryAfter > 0 && Covers(RetrySeconds(d.retryAfter), d.retryAfter)
  {
    if d.Blocked? {
      RetrySecondsIsLeast(d.retryAfter);
    }
  }

  /** This holds in every state and for every clock reading, early or late. */
  lemma CheckWaits(cfg: Config, s: State, ip: string, user: string, now: int)
    ensures var (after, d) := Check(cfg, s, ip, user, now); WaitsForBucket(cfg, after, ip, user, now, d)
  {}

  lemma FailWaits(cfg: Config, s: State, ip: string, user: string, now: int, v: Option<string>, w: Option<string>)
    requires Positive(cfg)
    ensures var (after, d) := Fail(cfg, s, ip, user, now, v, w); WaitsForBucket(cfg, after, ip, user, now, d)
  {
    var m := Maintained(s, now);
    OpenAfterCount(Evicted(m.ip, v), ip, now, cfg.window);
    OpenAfterCount(Evicted(m.user, w), user, now, cfg.window);
  }

  lemma OpenAfterCount(store: Store, key: string, now: int, window: int)
    requires window > 0
    ensures now < Counted(store, key, now, window).resetAt
  {}

  lemma SmallerMap(a: Store, b: Store)
    requires a.Keys <= b.Keys
    ensures |a| <= |b|
  {
    assert |a| == |a.Keys| && |b| == |b.Keys|;
    SubsetSize(a.Keys, b.Keys);
  }

  lemma MaintainedKeeps(cfg: Config, s: State, now: int)
    ensures WithinCap(s) ==> WithinCap(Maintained(s, now))
    ensures forall clock :: StatesRecent(cfg, s, clock) ==> StatesRecent(cfg, Maintained(s, now), clock)
  {
    SmallerMap(Swept(s.ip, now), s.ip);
    SmallerMap(Swept(s.user, now), s.user);
  }

  lemma CounterGrowth(store: Store, key: string, victim: Option<string>, now: int, window: int)
    requires |store| <= MAX_TRACKED && Victim(store, key, victim)
    ensures |Incremented(Evicted(store, victim), key, now, window)| <= MAX_TRACKED
  {
    var e := Evicted(store, victim);
    assert e.Keys == if victim.None? then store.Keys else store.Keys - {victim.value};
    assert |e| == |e.Keys| && |store| == |store.Keys|;
    if key != "" {
      assert Incremented(e, key, now, window).Keys == e.Keys + {key};
    }
  }

  /** What one store contributes to a check. */
  lemma CheckedStore(store: Store, key: string, max: int, window: int, clock: int, now: int, kind: Kind)
    requires Recent(store, window, clock) && clock <= now
    ensures Recent(Forgotten(store, key, now), window, now) && |Forgotten(store, key, now)| <= |store|
    ensures var d := BlockedBy(store, key, max, now, kind);
            var after := Forgotten(store, key, now);
            d.Blocked? ==> d.bucket == kind && key in after && after[key].failures >= max &&
                           now < after[key].resetAt <= now + window && d.retryAfter == after[key].resetAt - now
  {
    SmallerMap(Forgotten(store, key, now), store);
  }

  /** What one store contributes to recording a failure. */
  lemma FailedStore(store: Store, key: string, victim: Option<string>, max: int, window: int, clock: int, now: int,
                    kind: Kind)
    requires Recent(store, window, clock) && clock <= now && window > 0 && Victim(store, key, victim)
    ensures var after := Incremented(Evicted(store, victim), key, now, window);
            var d := ReachedBy(after, key, max, now, kind);
            Recent(after, window, now) && (|store| <= MAX_TRACKED ==> |after| <= MAX_TRACKED) &&
            (d.Blocked? ==> d.bucket == kind && key in after && after[key].failures >= max &&
                            now < after[key].resetAt <= now + window && d.retryAfter == after[key].resetAt - now)
  {
    if |store| <= MAX_TRACKED {
      CounterGrowth(store, key, victim, now, window);
    }
  }

  /** One check under a clock that does not run back. */
  lemma CheckBounds(cfg: Config, s: State, ip: string, user: string, clock: int, now: int)
    requires Positive(cfg) && StatesRecent(cfg, s, clock) && clock <= now
    ensures var (after, d) := Check(cfg, s, ip, user, now);
            StatesRecent(cfg, after, now) && FairRetry(cfg, after, ip, user, now, d) &&
            (WithinCap(s) ==> WithinCap(after))
  {
    MaintainedKeeps(cfg, s, now);
    var m := Maintained(s, now);
    CheckedStore(m.ip, ip, cfg.ipMax, cfg.window, clock, now, Ip);
    CheckedStore(m.user, user, cfg.userMax, cfg.window, clock, now, Username);
  }

  lemma FailBounds(cfg: Config, s: State, ip: string, user: string, clock: int, now: int,
                   v: Option<string>, w: Option<string>)
    requires Positive(cfg) && StatesRecent(cfg, s, clock) && clock <= now && Victims(s, ip, user, now, v, w)
    ensures var (after, d) := Fail(cfg, s, ip, user, now, v, w);
            StatesRecent(cfg, after, now) && FairRetry(cfg, after, ip, user, now, d) &&
            (WithinCap(s) ==> WithinCap(after))
  {
    MaintainedKeeps(cfg, s, now);
    var m := Maintained(s, now);
    FailedStore(m.ip, ip, v, cfg.ipMax, cfg.window, clock, now, Ip);
    FailedStore(m.user, user, w, cfg.userMax, cfg.window, clock, now, Username);
  }

  /** The seconds of the Retry-After header. */
  function RetrySeconds(retryAfter: int): int {
    var s := (retryAfter + SECOND - 1) / SECOND;
    if s < 1 then 1 else s
  }

  /** The least whole number of seconds that covers a wait in nanoseconds. */
  predicate Covers(seconds: int, wait: int) {
    (seconds - 1) * 1_000_000_000 < wait <= seconds * 1_000_000_000
  }

  /** The header names the least whole number of seconds after which the bucket has reset. */
  lemma RetrySecondsIsLeast(retryAfter: int)
    requires retryAfter > 0
    ensures Covers(RetrySeconds(retryAfter), retryAfter)
    ensures forall s: int :: s * SECOND >= retryAfter ==> s >= RetrySeconds(retryAfter)
  {
    forall s: int | s * SECOND >= retryAfter ensures s >= RetrySeconds(retryAfter) {}
  }

  /** Every 64th operation sweeps, the others do not, and the counter wraps at 64 bits. */
  lemma SweepsEvery64th(s: State, now: int)
    requires s.operations <= 0xffff_ffff_ffff_ffff
    ensures (s.operations + 1) % 64 == 0 ==>
              Maintained(s, now).ip == Swept(s.ip, now) && Maintained(s, now).user == Swept(s.user, now)
    ensures (s.operations + 1) % 64 != 0 ==> Maintained(s, now).ip == s.ip && Maintained(s, now).user == s.user
    ensures Maintained(s, now).operations == if s.operations == 0xffff_ffff_ffff_ffff then 0 else s.operations + 1
  {}
}
