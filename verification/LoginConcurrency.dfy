/** Login requests that check, try the credentials and record, each as separate critical sections. */
module LoginConcurrency {
  import opened Text
  import opened LoginLimiter

  // ---------------------------------------------------------------- one request

  datatype Credentials = Correct(username: string) | Wrong | Unavailable

  datatype Response = Session | TooMany(retrySeconds: int, bucket: Kind) | Unauthorized | ServerError

  /** The answer to a blocked decision names its bucket and the least whole seconds that cover its wait. */
  ghost predicate Announces(response: Response, d: Decision) {
    d.Blocked? && response.TooMany? && response.bucket == d.bucket && Covers(response.retrySeconds, d.retryAfter)
  }

  /** `writeLoginThrottled`. */
  method Throttle(d: Decision) returns (response: Response)
    requires d.Blocked? && d.retryAfter > 0
    ensures Announces(response, d)
  {
    RetrySecondsIsLeast(d.retryAfter);
    var retrySeconds := (d.retryAfter + SECOND - 1) / SECOND;
    if retrySeconds < 1 {
      retrySeconds := 1;
    }
    response := TooMany(retrySeconds, d.bucket);
  }

  /** Check, credentials, record. The credentials are looked at only when the check lets the request
      through, which `attempted` tells. */
  method AuthenticateLogin(l: LoginRateLimiter, ip: string, username: string, checkedAt: int, failedAt: int,
                           credentials: Credentials) returns (response: Response, attempted: bool)
    modifies l
    ensures var (checked, d) := Check(l.cfg, old(l.Now()), GoTrim(ip), UserKey(l.lower, username), checkedAt);
            (attempted <==> d == Allowed) &&
            (!attempted ==> l.Now() == checked && Announces(response, d)) &&
            (attempted && credentials.Wrong? ==>
               Rejected(l.cfg, checked, GoTrim(ip), UserKey(l.lower, username), failedAt, l.Now(), response)) &&
            (attempted && credentials.Unavailable? ==> l.Now() == checked && response == ServerError) &&
            (attempted && credentials.Correct? ==>
               l.Now() == Succeed(checked, UserKey(l.lower, credentials.username)) && response == Session)
    ensures attempted && credentials.Wrong? ==>
              (response.TooMany? <==> Reached(l.cfg, l.Now(), GoTrim(ip), UserKey(l.lower, username)))
  {
    ghost var before := l.Now();
    var decision := l.CheckLogin(ip, username, checkedAt);
    WaitIsPositive(l.cfg, before, GoTrim(ip), UserKey(l.lower, username), checkedAt, l.Now(), decision);
    attempted := decision == Allowed;
    if decision.Blocked? {
      response := Throttle(decision);
      return;
    }
    match credentials {
      case Wrong =>
        response := RejectLogin(l, ip, username, failedAt);
      case Unavailable =>
        response := ServerError;
      case Correct(name) =>
        l.RecordSuccess(name);
        response := Session;
    }
  }

  /** The failure is recorded, and the answer is that of its decision. */
  ghost predicate Rejected(cfg: Config, s: State, ip: string, user: string, now: int, after: State,
                           response: Response)
  {
    exists d :: Failed(cfg, s, ip, user, now, after, d) &&
      (if d.Blocked? then Announces(response, d) else response == Unauthorized)
  }

  /** The branch for invalid credentials. */
  method RejectLogin(l: LoginRateLimiter, ip: string, username: string, failedAt: int) returns (response: Response)
    modifies l
    ensures Rejected(l.cfg, old(l.Now()), GoTrim(ip), UserKey(l.lower, username), failedAt, l.Now(), response)
    ensures response.TooMany? <==> Reached(l.cfg, l.Now(), GoTrim(ip), UserKey(l.lower, username))
  {
    ghost var before := l.Now();
    var decision := l.RecordFailure(ip, username, failedAt);
    FailureReaches(l.cfg, before, GoTrim(ip), UserKey(l.lower, username), failedAt, l.Now(), decision);
    WaitIsPositive(l.cfg, before, GoTrim(ip), UserKey(l.lower, username), failedAt, l.Now(), decision);
    if decision.Blocked? {
      response := Throttle(decision);
    } else {
      response := Unauthorized;
    }
  }

  lemma FailureReaches(cfg: Config, s: State, ip: string, user: string, now: int, after: State, d: Decision)
    requires Failed(cfg, s, ip, user, now, after, d)
    ensures d.Blocked? <==> Reached(cfg, after, ip, user)
  {}

  /** One of the two limits is reached. */
  predicate Reached(cfg: Config, s: State, ip: string, user: string) {
    (ip != "" && ip in s.ip && s.ip[ip].failures >= cfg.ipMax) ||
    (user != "" && user in s.user && s.user[user].failures >= cfg.userMax)
  }

  // ---------------------------------------------------------------- many requests at once

  /** A slot of the server: at most as many requests are under way as there are slots. */
  datatype Call = Free | Started(ip: string, user: string) | Passed(ip: string, user: string)

  datatype Server = Server(limiter: State, calls: seq<Call>)

  datatype Action =
    | Begin(ip: string, user: string)
    | DoCheck(now: int)
    | Reject(now: int, ipVictim: Option<string>, userVictim: Option<string>)
    | Accept(user: string)
    | GiveUp

  /** One critical section of the request in slot i. Clocks are read before the lock is taken, so
      nothing is said about their order. */
  ghost predicate Acts(cfg: Config, a: Server, i: nat, action: Action, b: Server) {
    i < |a.calls| &&
    match action
    case Begin(ip, user) => a.calls[i].Free? && b == a.(calls := a.calls[i := Started(ip, user)])
    case DoCheck(now) =>
      a.calls[i].Started? &&
      var (after, d) := Check(cfg, a.limiter, a.calls[i].ip, a.calls[i].user, now);
      b == Server(after, a.calls[i := if d.Blocked? then Free else Passed(a.calls[i].ip, a.calls[i].user)])
    case Reject(now, v, w) =>
      a.calls[i].Passed? && Victims(a.limiter, a.calls[i].ip, a.calls[i].user, now, v, w) &&
      b == Server(Fail(cfg, a.limiter, a.calls[i].ip, a.calls[i].user, now, v, w).0, a.calls[i := Free])
    case Accept(user) => a.calls[i].Passed? && b == Server(Succeed(a.limiter, user), a.calls[i := Free])
    case GiveUp => b == a.(calls := a.calls[i := Free])
  }

  predicate HoldsKey(kind: Kind, call: Call, key: string) {
    call.Passed? && (if kind.Ip? then call.ip else call.user) == key
  }

  /** Requests that passed the check with this key and have not recorded yet. */
  function Pending(kind: Kind, calls: seq<Call>, key: string): nat {
    if calls == [] then 0 else (if HoldsKey(kind, calls[0], key) then 1 else 0) + Pending(kind, calls[1..], key)
  }

  /** Failures recorded and still to come stay below the limit plus the number of slots. */
  ghost predicate Bounded(kind: Kind, cfg: Config, s: Server) {
    forall key :: key in StoreOf(kind, s.limiter) ==>
      StoreOf(kind, s.limiter)[key].failures + Pending(kind, s.calls, key) <= Limit(kind, cfg) - 1 + |s.calls|
  }

  lemma {:induction false} PendingUpdate(kind: Kind, calls: seq<Call>, i: nat, call: Call, key: string)
    requires i < |calls|
    ensures Pending(kind, calls[i := call], key) == Pending(kind, calls, key)
              - (if HoldsKey(kind, calls[i], key) then 1 else 0) + (if HoldsKey(kind, call, key) then 1 else 0)
  {
    if i == 0 {
      assert calls[i := call][1..] == calls[1..];
    } else {
      assert calls[i := call][1..] == calls[1..][i - 1 := call];
      PendingUpdate(kind, calls[1..], i - 1, call, key);
    }
  }

  lemma {:induction false} PendingFits(kind: Kind, calls: seq<Call>, key: string)
    ensures Pending(kind, calls, key) <= |calls|
  {
    if calls != [] {
      PendingFits(kind, calls[1..], key);
    }
  }

  /** Deletions keep the bound, and so does replacing a call by one that holds no key. */
  lemma FewerKeep(kind: Kind, cfg: Config, a: Server, b: Server, i: nat, call: Call)
    requires Bounded(kind, cfg, a) && i < |a.calls| && b.calls == a.calls[i := call] && !call.Passed?
    requires forall k :: k in StoreOf(kind, b.limiter) ==>
               k in StoreOf(kind, a.limiter) && StoreOf(kind, b.limiter)[k] == StoreOf(kind, a.limiter)[k]
    ensures Bounded(kind, cfg, b)
  {
    forall key | key in StoreOf(kind, b.limiter)
      ensures StoreOf(kind, b.limiter)[key].failures + Pending(kind, b.calls, key) <= Limit(kind, cfg) - 1 + |b.calls|
    {
      PendingUpdate(kind, a.calls, i, call, key);
    }
  }

  /** A check that lets a request through has just seen its key below the limit, or not at all. */
  lemma PassedBelow(kind: Kind, cfg: Config, s: State, ip: string, user: string, now: int)
    requires Check(cfg, s, ip, user, now).1.Allowed?
    ensures var after := StoreOf(kind, Check(cfg, s, ip, user, now).0);
            var key := if kind.Ip? then ip else user;
            key != "" && key in after ==> after[key].failures < Limit(kind, cfg)
  {}

  lemma CheckDeletesOnly(kind: Kind, cfg: Config, s: State, ip: string, user: string, now: int)
    ensures var before, after := StoreOf(kind, s), StoreOf(kind, Check(cfg, s, ip, user, now).0);
            forall k :: k in after ==> k in before && after[k] == before[k]
  {}

  lemma CheckKeeps(kind: Kind, cfg: Config, a: Server, i: nat, now: int, b: Server)
    requires Bounded(kind, cfg, a) && Acts(cfg, a, i, DoCheck(now), b) && "" !in StoreOf(kind, a.limiter)
    ensures Bounded(kind, cfg, b)
  {
    var call := b.calls[i];
    CheckDeletesOnly(kind, cfg, a.limiter, a.calls[i].ip, a.calls[i].user, now);
    if !call.Passed? {
      FewerKeep(kind, cfg, a, b, i, call);
    } else {
      PassedBelow(kind, cfg, a.limiter, a.calls[i].ip, a.calls[i].user, now);
      forall key | key in StoreOf(kind, b.limiter)
        ensures StoreOf(kind, b.limiter)[key].failures + Pending(kind, b.calls, key) <= Limit(kind, cfg) - 1 + |b.calls|
      {
        PendingUpdate(kind, a.calls, i, call, key);
        PendingFits(kind, b.calls, key);
      }
    }
  }

  /** What recording a failure makes of one store. */
  lemma FailCounts(kind: Kind, cfg: Config, s: State, ip: string, user: string, now: int,
                   v: Option<string>, w: Option<string>)
    ensures var before, after := StoreOf(kind, s), StoreOf(kind, Fail(cfg, s, ip, user, now, v, w).0);
            var key := if kind.Ip? then ip else user;
            (forall k :: k in after && k != key ==> k in before && after[k] == before[k]) &&
            (key == "" ==> forall k :: k in after ==> k in before && after[k] == before[k]) &&
            (key != "" ==>
             key in after &&
             (after[key].failures == 1 || (key in before && after[key].failures == before[key].failures + 1)))
  {}

  lemma FailKeeps(kind: Kind, cfg: Config, a: Server, i: nat, action: Action, b: Server)
    requires Positive(cfg) && Bounded(kind, cfg, a) && action.Reject? && Acts(cfg, a, i, action, b)
    ensures Bounded(kind, cfg, b)
  {
    var call := a.calls[i];
    var own := if kind.Ip? then call.ip else call.user;
    FailCounts(kind, cfg, a.limiter, call.ip, call.user, action.now, action.ipVictim, action.userVictim);
    forall key | key in StoreOf(kind, b.limiter)
      ensures StoreOf(kind, b.limiter)[key].failures + Pending(kind, b.calls, key) <= Limit(kind, cfg) - 1 + |b.calls|
    {
      PendingUpdate(kind, a.calls, i, Free, key);
      PendingFits(kind, a.calls, key);
    }
  }

  lemma ActKeeps(kind: Kind, cfg: Config, a: Server, i: nat, action: Action, b: Server)
    requires Positive(cfg) && Bounded(kind, cfg, a) && "" !in StoreOf(kind, a.limiter) && Acts(cfg, a, i, action, b)
    ensures Bounded(kind, cfg, b) && "" !in StoreOf(kind, b.limiter) && |b.calls| == |a.calls|
  {
    match action
    case DoCheck(now) =>
      CheckKeeps(kind, cfg, a, i, now, b);
      CheckDeletesOnly(kind, cfg, a.limiter, a.calls[i].ip, a.calls[i].user, now);
    case Reject(now, v, w) =>
      FailKeeps(kind, cfg, a, i, action, b);
      FailCounts(kind, cfg, a.limiter, a.calls[i].ip, a.calls[i].user, now, v, w);
    case _ => FewerKeep(kind, cfg, a, b, i, b.calls[i]);
  }

  /** A run: every state follows from the one before by one critical section of some request. */
  ghost predicate Run(cfg: Config, run: seq<Server>) {
    |run| > 0 && forall t :: 0 <= t < |run| - 1 ==> Follows(cfg, run[t], run[t + 1])
  }

  ghost predicate Follows(cfg: Config, a: Server, b: Server) {
    exists i: nat, action :: Acts(cfg, a, i, action, b)
  }

  ghost predicate Idle(s: Server) {
    s.limiter == State(map[], map[], 0) && forall i :: 0 <= i < |s.calls| ==> s.calls[i] == Free
  }

  lemma {:induction false} RunKeeps(kind: Kind, cfg: Config, run: seq<Server>)
    requires Positive(cfg) && Run(cfg, run) && Idle(run[0])
    ensures var last := run[|run| - 1];
            Bounded(kind, cfg, last) && "" !in StoreOf(kind, last.limiter) && |last.calls| == |run[0].calls|
  {
    if |run| > 1 {
      var n := |run| - 1;
      var before := run[..n];
      assert Run(cfg, before) by {
        forall t | 0 <= t < |before| - 1 ensures Follows(cfg, before[t], before[t + 1]) {
          assert Follows(cfg, run[t], run[t + 1]);
        }
      }
      RunKeeps(kind, cfg, before);
      assert Follows(cfg, run[n - 1], run[n - 1 + 1]);
      var i: nat, action :| Acts(cfg, run[n - 1], i, action, run[n]);
      ActKeeps(kind, cfg, run[n - 1], i, action, run[n]);
    }
  }

  /** In-flight bound: with at most C requests under way at once, no tracked key ever counts more
      than its limit - 1 + C failures, whatever the interleaving of checks, attempts and records,
      whatever the clocks say, and through expiry, sweeps and evictions. */
  lemma InFlightBound(cfg: Config, run: seq<Server>, t: nat, key: string)
    requires Positive(cfg) && Run(cfg, run) && Idle(run[0]) && t < |run|
    ensures key in run[t].limiter.ip ==> run[t].limiter.ip[key].failures <= cfg.ipMax - 1 + |run[0].calls|
    ensures key in run[t].limiter.user ==> run[t].limiter.user[key].failures <= cfg.userMax - 1 + |run[0].calls|
  {
    var prefix := run[..t + 1];
    assert Run(cfg, prefix) by {
      forall u | 0 <= u < |prefix| - 1 ensures Follows(cfg, prefix[u], prefix[u + 1]) {
        assert Follows(cfg, run[u], run[u + 1]);
      }
    }
    RunKeeps(Ip, cfg, prefix);
    RunKeeps(Username, cfg, prefix);
    assert prefix[|prefix| - 1] == run[t];
    assert key in run[t].limiter.ip ==> key in StoreOf(Ip, run[t].limiter);
    assert key in run[t].limiter.user ==> key in StoreOf(Username, run[t].limiter);
  }

  // ---------------------------------------------------------------- the bound is attained

  /** b can follow a, some number of critical sections later. */
  ghost predicate Path(cfg: Config, a: Server, b: Server) {
    exists run: seq<Server> :: IsPath(cfg, run, a, b)
  }

  ghost predicate IsPath(cfg: Config, run: seq<Server>, a: Server, b: Server) {
    |run| > 0 && run[0] == a && run[|run| - 1] == b && forall t :: 0 <= t < |run| - 1 ==>
      Follows(cfg, run[t], run[t + 1])
  }

  lemma PathSelf(cfg: Config, a: Server)
    ensures Path(cfg, a, a)
  {
    assert IsPath(cfg, [a], a, a);
  }

  lemma PathThen(cfg: Config, a: Server, b: Server, i: nat, action: Action, c: Server)
    requires Path(cfg, a, b) && Acts(cfg, b, i, action, c)
    ensures Path(cfg, a, c)
  {
    var run :| IsPath(cfg, run, a, b);
    var longer := run + [c];
    forall t | 0 <= t < |longer| - 1 ensures Follows(cfg, longer[t], longer[t + 1]) {
      if t < |run| - 1 {
        assert Follows(cfg, run[t], run[t + 1]);
      } else {
        assert Acts(cfg, longer[t], i, action, longer[t + 1]);
      }
    }
    assert IsPath(cfg, longer, a, c);
  }

  /** The address and the user name of attempts that concern one store only. */
  function IpOf(kind: Kind, key: string): string { if kind.Ip? then key else "" }

  function UserOf(kind: Kind, key: string): string { if kind.Ip? then "" else key }

  /** Only one key of one store has failed, n times, all at time zero. */
  function Counting(kind: Kind, cfg: Config, key: string, n: nat, operations: nat): State {
    var store: Store := if n == 0 then map[] else map[key := Bucket(n, cfg.window)];
    if kind.Ip? then State(store, map[], operations) else State(map[], store, operations)
  }

  lemma CountingMaintained(kind: Kind, cfg: Config, key: string, n: nat, operations: nat) returns (o: nat)
    requires Positive(cfg)
    ensures Maintained(Counting(kind, cfg, key, n, operations), 0) == Counting(kind, cfg, key, n, o)
  {
    var s := Counting(kind, cfg, key, n, operations);
    assert Swept(s.ip, 0) == s.ip && Swept(s.user, 0) == s.user;
    o := Maintained(s, 0).operations;
  }

  lemma CountingChecks(kind: Kind, cfg: Config, key: string, n: nat, operations: nat) returns (o: nat)
    requires Positive(cfg) && key != "" && n < Limit(kind, cfg)
    ensures Check(cfg, Counting(kind, cfg, key, n, operations), IpOf(kind, key), UserOf(kind, key), 0)
              == (Counting(kind, cfg, key, n, o), Allowed)
  {
    o := CountingMaintained(kind, cfg, key, n, operations);
  }

  lemma CountingFails(kind: Kind, cfg: Config, key: string, n: nat, operations: nat) returns (o: nat)
    requires Positive(cfg) && key != ""
    ensures Victims(Counting(kind, cfg, key, n, operations), IpOf(kind, key), UserOf(kind, key), 0, None, None)
    ensures Fail(cfg, Counting(kind, cfg, key, n, operations), IpOf(kind, key), UserOf(kind, key), 0, None, None).0
              == Counting(kind, cfg, key, n + 1, o)
  {
    o := CountingMaintained(kind, cfg, key, n, operations);
    var m := Counting(kind, cfg, key, n, o);
    assert Incremented(StoreOf(kind, m), key, 0, cfg.window) == StoreOf(kind, Counting(kind, cfg, key, n + 1, o));
  }

  /** A server that only counted failures of one key; the first k slots passed their check. */
  function Midway(kind: Kind, cfg: Config, key: string, n: nat, operations: nat, size: nat, k: nat): Server
    requires k <= size
  {
    Server(Counting(kind, cfg, key, n, operations), Slots(kind, key, size, k))
  }

  function Slots(kind: Kind, key: string, size: nat, k: nat): (calls: seq<Call>)
    requires k <= size
    ensures |calls| == size && forall i :: 0 <= i < size ==> calls[i] == if i < k then Holding(kind, key) else Free
  {
    seq(size, i => if i < k then Holding(kind, key) else Free)
  }

  function Holding(kind: Kind, key: string): Call { Passed(IpOf(kind, key), UserOf(kind, key)) }

  /** The next slot begins and passes its check while the count is below the limit. */
  lemma OnePasses(kind: Kind, cfg: Config, start: Server, key: string, n: nat, operations: nat, size: nat, k: nat)
      returns (o: nat)
    requires Positive(cfg) && key != "" && n < Limit(kind, cfg) && k < size
    requires Path(cfg, start, Midway(kind, cfg, key, n, operations, size, k))
    ensures Path(cfg, start, Midway(kind, cfg, key, n, o, size, k + 1))
  {
    var a, ip, user := Midway(kind, cfg, key, n, operations, size, k), IpOf(kind, key), UserOf(kind, key);
    var b := a.(calls := a.calls[k := Started(ip, user)]);
    PathThen(cfg, start, a, k, Begin(ip, user), b);
    o := CountingChecks(kind, cfg, key, n, operations);
    var c := Midway(kind, cfg, key, n, o, size, k + 1);
    assert b.calls[k := Passed(ip, user)] == c.calls;
    PathThen(cfg, start, b, k, DoCheck(0), c);
  }

  /** The last slot that passed has its credentials rejected. */
  lemma OneIsRejected(kind: Kind, cfg: Config, start: Server, key: string, n: nat, operations: nat, size: nat, k: nat)
      returns (o: nat)
    requires Positive(cfg) && key != "" && 0 < k <= size
    requires Path(cfg, start, Midway(kind, cfg, key, n, operations, size, k))
    ensures Path(cfg, start, Midway(kind, cfg, key, n + 1, o, size, k - 1))
  {
    var a := Midway(kind, cfg, key, n, operations, size, k);
    o := CountingFails(kind, cfg, key, n, operations);
    var b := Midway(kind, cfg, key, n + 1, o, size, k - 1);
    assert a.calls[k - 1 := Free] == b.calls;
    PathThen(cfg, start, a, k - 1, Reject(0, None, None), b);
  }

  lemma {:induction false} AllPass(kind: Kind, cfg: Config, start: Server, key: string, n: nat, operations: nat,
                                   size: nat, k: nat)
      returns (o: nat)
    requires Positive(cfg) && key != "" && n < Limit(kind, cfg) && k <= size
    requires Path(cfg, start, Midway(kind, cfg, key, n, operations, size, k))
    ensures Path(cfg, start, Midway(kind, cfg, key, n, o, size, size))
    decreases size - k
  {
    o := operations;
    if k < size {
      o := OnePasses(kind, cfg, start, key, n, operations, size, k);
      o := AllPass(kind, cfg, start, key, n, o, size, k + 1);
    }
  }

  lemma {:induction false} AllRejected(kind: Kind, cfg: Config, start: Server, key: string, n: nat, operations: nat,
                                       size: nat, k: nat)
      returns (o: nat)
    requires Positive(cfg) && key != "" && k <= size
    requires Path(cfg, start, Midway(kind, cfg, key, n, operations, size, k))
    ensures Path(cfg, start, Midway(kind, cfg, key, n + k, o, size, 0))
    decreases k
  {
    o := operations;
    if k > 0 {
      o := OneIsRejected(kind, cfg, start, key, n, operations, size, k);
      o := AllRejected(kind, cfg, start, key, n + 1, o, size, k - 1);
    }
  }

  /** The same slot fails again and again, up to one below the limit. */
  lemma {:induction false} OneByOne(kind: Kind, cfg: Config, start: Server, key: string, n: nat, operations: nat,
                                    size: nat)
      returns (o: nat)
    requires Positive(cfg) && key != "" && size > 0 && n < Limit(kind, cfg)
    requires Path(cfg, start, Midway(kind, cfg, key, n, operations, size, 0))
    ensures Path(cfg, start, Midway(kind, cfg, key, Limit(kind, cfg) - 1, o, size, 0))
    decreases Limit(kind, cfg) - n
  {
    o := operations;
    if n < Limit(kind, cfg) - 1 {
      o := OnePasses(kind, cfg, start, key, n, operations, size, 0);
      o := OneIsRejected(kind, cfg, start, key, n, o, size, 1);
      o := OneByOne(kind, cfg, start, key, n + 1, o, size);
    }
  }

  /** A run with that many slots that ends with limit - 1 + slots failures counted. */
  ghost predicate Attains(kind: Kind, cfg: Config, run: seq<Server>, key: string, size: nat) {
    Run(cfg, run) && Idle(run[0]) && |run[0].calls| == size &&
    var last := StoreOf(kind, run[|run| - 1].limiter);
    key in last && last[key].failures == Limit(kind, cfg) - 1 + size
  }

  /** No smaller bound holds: for every address and every user name and any number of slots, some
      run counts exactly limit - 1 + C failures, because checking and recording are separate
      critical sections. */
  lemma BoundIsAttained(kind: Kind, cfg: Config, key: string, size: nat)
    requires Positive(cfg) && key != "" && size > 0
    ensures exists run: seq<Server> :: Attains(kind, cfg, run, key, size)
  {
    var start, n := Midway(kind, cfg, key, 0, 0, size, 0), Limit(kind, cfg) - 1;
    PathSelf(cfg, start);
    var o := OneByOne(kind, cfg, start, key, 0, 0, size);
    o := AllPass(kind, cfg, start, key, n, o, size, 0);
    o := AllRejected(kind, cfg, start, key, n, o, size, size);
    var end := Midway(kind, cfg, key, n + size, o, size, 0);
    var run: seq<Server> :| IsPath(cfg, run, start, end);
    assert Attains(kind, cfg, run, key, size);
  }
}
