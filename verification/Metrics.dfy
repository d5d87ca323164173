/** The metrics registry and what a scrape can see while requests are recording. */
module Metrics {
  import opened Text
  import opened Collections
  import opened LabelKey

  // ---------------------------------------------------------------- series

  /** Upper bounds in seconds. */
  const BOUNDS: seq<real> := [0.005, 0.01, 0.025, 0.05, 0.1, 0.25, 0.5, 1.0, 2.5, 5.0, 10.0, 30.0, 60.0]

  datatype Histogram = Histogram(count: nat, sum: real, buckets: seq<nat>)

  type Counters = map<string, map<string, nat>>

  type Histograms = map<string, map<string, Histogram>>

  function SeriesOf<V>(families: map<string, map<string, V>>, name: string): map<string, V> {
    if name in families then families[name] else map[]
  }

  function Counter(c: Counters, name: string, key: string): nat {
    if key in SeriesOf(c, name) then SeriesOf(c, name)[key] else 0
  }

  function Observed(h: Histograms, name: string, key: string): Histogram {
    if key in SeriesOf(h, name) then SeriesOf(h, name)[key] else Empty()
  }

  function Empty(): Histogram {
    Histogram(0, 0.0, seq(|BOUNDS|, i => 0))
  }

  function Bumped(c: Counters, name: string, key: string): Counters {
    c[name := SeriesOf(c, name)[key := Counter(c, name, key) + 1]]
  }

  function Added(h: Histogram, seconds: real): Histogram
    requires |h.buckets| == |BOUNDS|
  {
    Histogram(h.count + 1, h.sum + seconds,
              seq(|BOUNDS|, i requires 0 <= i < |BOUNDS| =>
                    if seconds <= BOUNDS[i] then h.buckets[i] + 1 else h.buckets[i]))
  }

  ghost predicate Sized(h: Histograms) {
    forall name, key :: name in h && key in h[name] ==> |h[name][key].buckets| == |BOUNDS|
  }

  function Timed(h: Histograms, name: string, key: string, seconds: real): Histograms
    requires |Observed(h, name, key).buckets| == |BOUNDS|
  {
    h[name := SeriesOf(h, name)[key := Added(Observed(h, name, key), seconds)]]
  }

  class Registry {
    const printable: char -> bool
    var counters: Counters
    var histograms: Histograms

    constructor (printable: char -> bool)
      ensures this.printable == printable && counters == map[] && histograms == map[] && Valid()
    {
      this.printable := printable;
      counters, histograms := map[], map[];
    }

    ghost predicate Valid()
      reads this
    {
      Sized(histograms)
    }

    method IncCounter(name: string, labels: Labels, order: seq<string>)
      requires Distinct(order)
      requires forall n :: n in order <==> n in labels
      modifies this`counters
      ensures counters == Bumped(old(counters), name, Key(printable, labels))
    {
      var key := LabelsKey(printable, labels, order);
      var series := SeriesOf(counters, name);
      series := series[key := (if key in series then series[key] else 0) + 1];
      counters := counters[name := series];
    }

    method ObserveDuration(name: string, seconds: real, labels: Labels, order: seq<string>)
      requires Valid()
      requires Distinct(order)
      requires forall n :: n in order <==> n in labels
      modifies this`histograms
      ensures Valid()
      ensures |Observed(old(histograms), name, Key(printable, labels)).buckets| == |BOUNDS|
      ensures histograms == Timed(old(histograms), name, Key(printable, labels), seconds)
    {
      var key := LabelsKey(printable, labels, order);
      var series := SeriesOf(histograms, name);
      var v := if key in series then series[key] else Empty();
      ghost var before := v;
      v := v.(count := v.count + 1, sum := v.sum + seconds);
      for i := 0 to |BOUNDS|
        invariant v.count == before.count + 1 && v.sum == before.sum + seconds && |v.buckets| == |BOUNDS|
        invariant forall k :: 0 <= k < i ==>
                    v.buckets[k] == if seconds <= BOUNDS[k] then before.buckets[k] + 1 else before.buckets[k]
        invariant forall k :: i <= k < |BOUNDS| ==> v.buckets[k] == before.buckets[k]
      {
        if seconds <= BOUNDS[i] {
          v := v.(buckets := v.buckets[i := v.buckets[i] + 1]);
        }
      }
      assert v == Added(before, seconds);
      histograms := histograms[name := series[key := v]];
    }
  }

  // ---------------------------------------------------------------- cumulative histograms

  function CountUpTo(values: seq<real>, bound: real): nat {
    if values == [] then 0
    else CountUpTo(values[..|values| - 1], bound) + (if values[|values| - 1] <= bound then 1 else 0)
  }

  function Sum(values: seq<real>): real {
    if values == [] then 0.0 else Sum(values[..|values| - 1]) + values[|values| - 1]
  }

  /** The histogram of these observations: all of them, their sum, and for each bound those at or below it. */
  ghost predicate Summarizes(h: Histogram, values: seq<real>) {
    h.count == |values| && h.sum == Sum(values) && |h.buckets| == |BOUNDS| &&
    forall i :: 0 <= i < |BOUNDS| ==> h.buckets[i] == CountUpTo(values, BOUNDS[i])
  }

  /** Observations in order, each with its family and key. */
  datatype Observation = Observation(name: string, key: string, seconds: real)

  function AfterObservations(log: seq<Observation>): (h: Histograms)
    ensures Sized(h)
  {
    if log == [] then map[]
    else
      var o := log[|log| - 1];
      Timed(AfterObservations(log[..|log| - 1]), o.name, o.key, o.seconds)
  }

  function ValuesOf(log: seq<Observation>, name: string, key: string): seq<real> {
    if log == [] then []
    else
      var o := log[|log| - 1];
      var before := ValuesOf(log[..|log| - 1], name, key);
      if o.name == name && o.key == key then before + [o.seconds] else before
  }

  lemma AddedSummarizes(h: Histogram, values: seq<real>, x: real)
    requires Summarizes(h, values)
    ensures Summarizes(Added(h, x), values + [x])
  {
    assert (values + [x])[..|values|] == values;
  }

  /** Every series summarizes exactly the observations made under its own family and key. */
  lemma {:induction false} SeriesSummarize(log: seq<Observation>, name: string, key: string)
    ensures Summarizes(Observed(AfterObservations(log), name, key), ValuesOf(log, name, key))
  {
    if log != [] {
      var n := |log| - 1;
      SeriesSummarize(log[..n], name, key);
      if log[n].name == name && log[n].key == key {
        AddedSummarizes(Observed(AfterObservations(log[..n]), name, key), ValuesOf(log[..n], name, key),
                        log[n].seconds);
      }
    }
  }

  lemma {:induction false} CountGrows(values: seq<real>, a: real, b: real)
    requires a <= b
    ensures CountUpTo(values, a) <= CountUpTo(values, b) <= |values|
  {
    if values != [] {
      CountGrows(values[..|values| - 1], a, b);
    }
  }

  /** Buckets are cumulative: they grow with their bounds and never exceed the count, which the
      `+Inf` bucket shows. */
  lemma BucketsAreCumulative(log: seq<Observation>, name: string, key: string, i: nat, j: nat)
    requires i <= j < |BOUNDS|
    ensures var h := Observed(AfterObservations(log), name, key);
            |h.buckets| == |BOUNDS| && h.buckets[i] <= h.buckets[j] <= h.count
  {
    SeriesSummarize(log, name, key);
    CountGrows(ValuesOf(log, name, key), BOUNDS[i], BOUNDS[j]);
  }

  // ---------------------------------------------------------------- the updates of one request

  datatype Update = Inc(name: string, labels: Labels) | Obs(name: string, labels: Labels)

  /** A request with the updates the middleware will make for it, and how many it has made. */
  datatype Request = Request(verb: string, route: string, status: int, plan: seq<Update>, done: nat)

  function Digits(n: nat): string {
    if n < 10 then ['0' + n as char] else Digits(n / 10) + ['0' + (n % 10) as char]
  }

  function FromDigits(s: string): int {
    if s == "" then 0 else FromDigits(s[..|s| - 1]) * 10 + (s[|s| - 1] as int - '0' as int)
  }

  lemma {:induction false} DigitsRoundTrip(n: nat)
    ensures FromDigits(Digits(n)) == n
  {
    if n >= 10 {
      DigitsRoundTrip(n / 10);
      var s := Digits(n);
      assert s[..|s| - 1] == Digits(n / 10);
    } else {
      assert Digits(n)[..0] == "";
    }
  }

  function Itoa(n: int): string {
    if n < 0 then ['-'] + Digits(-n) else Digits(n)
  }

  function RouteLabels(verb: string, route: string): Labels {
    map["method" := verb, "route" := route]
  }

  function StatusLabels(verb: string, route: string, status: int): Labels {
    map["method" := verb, "route" := route, "status" := Itoa(status)]
  }

  function StatusResult(status: int): string {
    if 200 <= status < 400 then "success" else "error"
  }

  function ResultLabels(result: string): Labels {
    map["result" := result]
  }

  const RECOVERY := "recovery_simulation"

  const OPERATIONS: set<string> := {"mrp", "detailed_schedule", "pegging", "dynamic_reschedule", "control_tower",
                                    RECOVERY}

  /** The planning operation of a route, as the common part of its metric names. */
  function Operation(route: string): Option<string> {
    if route == "/api/mrp/run" then Some("mrp")
    else if route == "/api/detailed-scheduling/run" then Some("detailed_schedule")
    else if route == "/api/sales-orders/{id}/pegging/run" then Some("pegging")
    else if route == "/api/dynamic-rescheduling/run" then Some("dynamic_reschedule")
    else if route == "/api/control-tower/refresh" then Some("control_tower")
    else if route == "/api/recovery-scenarios/{id}/simulate" then Some(RECOVERY)
    else None
  }

  function RunsName(operation: string): string {
    if operation == "control_tower" then "control_tower_refresh_total" else operation + "_runs_total"
  }

  function DurationName(operation: string): string {
    if operation == "control_tower" then "control_tower_refresh_duration_seconds"
    else if operation == RECOVERY then "recovery_simulation_duration_seconds"
    else operation + "_run_duration_seconds"
  }

  /** What the middleware records for a request, in program order. */
  function Plan(verb: string, route: string, status: int): seq<Update> {
    [Inc(HTTP_REQUESTS, StatusLabels(verb, route, status)), Obs(HTTP_DURATION, RouteLabels(verb, route))] +
    (if verb != "POST" || Operation(route).None? then []
     else PlanningPlan(Operation(route).value, StatusResult(status)))
  }

  const HTTP_REQUESTS := "http_requests_total"
  const HTTP_DURATION := "http_request_duration_seconds"

  function PlanningPlan(operation: string, result: string): seq<Update> {
    var labels := ResultLabels(result);
    if operation == RECOVERY && result == "error"
    then [Inc(RunsName(operation), labels), Inc("recovery_simulation_failed_total", map[]),
          Obs(DurationName(operation), labels)]
    else [Inc(RunsName(operation), labels), Obs(DurationName(operation), labels)]
  }

  // ---------------------------------------------------------------- which families a request updates

  /** The two families of a planning route. */
  predicate Families(route: string, runs: string, durations: string) {
    || (route == "/api/mrp/run" && runs == "mrp_runs_total" && durations == "mrp_run_duration_seconds")
    || (route == "/api/detailed-scheduling/run" && runs == "detailed_schedule_runs_total" &&
        durations == "detailed_schedule_run_duration_seconds")
    || (route == "/api/sales-orders/{id}/pegging/run" && runs == "pegging_runs_total" &&
        durations == "pegging_run_duration_seconds")
    || (route == "/api/dynamic-rescheduling/run" && runs == "dynamic_reschedule_runs_total" &&
        durations == "dynamic_reschedule_run_duration_seconds")
    || (route == "/api/control-tower/refresh" && runs == "control_tower_refresh_total" &&
        durations == "control_tower_refresh_duration_seconds")
    || (route == "/api/recovery-scenarios/{id}/simulate" && runs == "recovery_simulation_runs_total" &&
        durations == "recovery_simulation_duration_seconds")
  }

  lemma NamesBySuffix(operation: string, initial: char)
    requires operation != "" && operation[0] == initial && initial != 'c'
    ensures RunsName(operation) == operation + "_runs_total"
    ensures initial != 'r' ==> DurationName(operation) == operation + "_run_duration_seconds"
  {
    assert "control_tower"[0] == 'c' && RECOVERY[0] == 'r';
  }

  lemma MrpNames()
    ensures RunsName("mrp") == "mrp_runs_total"
    ensures DurationName("mrp") == "mrp_run_duration_seconds"
  {
    NamesBySuffix("mrp", 'm');
  }

  lemma ScheduleNames()
    ensures RunsName("detailed_schedule") == "detailed_schedule_runs_total"
    ensures DurationName("detailed_schedule") == "detailed_schedule_run_duration_seconds"
  {
    NamesBySuffix("detailed_schedule", 'd');
  }

  lemma PeggingNames()
    ensures RunsName("pegging") == "pegging_runs_total"
    ensures DurationName("pegging") == "pegging_run_duration_seconds"
  {
    NamesBySuffix("pegging", 'p');
  }

  lemma RescheduleNames()
    ensures RunsName("dynamic_reschedule") == "dynamic_reschedule_runs_total"
    ensures DurationName("dynamic_reschedule") == "dynamic_reschedule_run_duration_seconds"
  {
    NamesBySuffix("dynamic_reschedule", 'd');
  }

  lemma ControlTowerNames()
    ensures RunsName("control_tower") == "control_tower_refresh_total"
    ensures DurationName("control_tower") == "control_tower_refresh_duration_seconds"
  {}

  lemma RecoveryNames()
    ensures RunsName(RECOVERY) == "recovery_simulation_runs_total"
    ensures DurationName(RECOVERY) == "recovery_simulation_duration_seconds"
  {
    NamesBySuffix(RECOVERY, 'r');
  }

  lemma OperationNames(route: string, runs: string, durations: string)
    requires Families(route, runs, durations)
    ensures Operation(route).Some?
    ensures RunsName(Operation(route).value) == runs && DurationName(Operation(route).value) == durations
  {
    MrpNames();
    ScheduleNames();
    PeggingNames();
    RescheduleNames();
    ControlTowerNames();
    RecoveryNames();
  }

  lemma FamiliesOf(route: string)
    requires Operation(route).Some?
    ensures Families(route, RunsName(Operation(route).value), DurationName(Operation(route).value))
  {
    MrpNames();
    ScheduleNames();
    PeggingNames();
    RescheduleNames();
    ControlTowerNames();
    RecoveryNames();
  }

  lemma OtherRoutes(route: string)
    ensures Operation(route).Some? <==> exists runs, durations :: Families(route, runs, durations)
  {
    if Operation(route).Some? {
      FamiliesOf(route);
    }
    if runs, durations :| Families(route, runs, durations) {
      OperationNames(route, runs, durations);
    }
  }

  /** What a request updates, family by family: requests and duration always, and for a POST to a
      planning route the two families of that route by result, with the failures between them. */
  lemma PlanIs(verb: string, route: string, status: int)
    ensures var plan := Plan(verb, route, status);
            var result := map["result" := if 200 <= status < 400 then "success" else "error"];
            |plan| >= 2 &&
            plan[0] == Inc("http_requests_total", map["method" := verb, "route" := route, "status" := Itoa(status)]) &&
            plan[1] == Obs("http_request_duration_seconds", map["method" := verb, "route" := route]) &&
            (|plan| == 2 <==> verb != "POST" || !exists runs, durations :: Families(route, runs, durations)) &&
            forall runs, durations :: verb == "POST" && Families(route, runs, durations) ==>
              plan[2] == Inc(runs, result) && plan[|plan| - 1] == Obs(durations, result) &&
              (if IsFailedRecovery(verb, route, status)
               then |plan| == 5 && plan[3] == Inc("recovery_simulation_failed_total", map[]) else |plan| == 4)
  {
    PlanRest(verb, route, status);
    OtherRoutes(route);
    forall runs, durations | verb == "POST" && Families(route, runs, durations)
      ensures PlanEnds(Plan(verb, route, status)[2..], runs, durations, verb, route, status)
    {
      RestEnds(verb, route, status, runs, durations);
    }
  }

  lemma RestEnds(verb: string, route: string, status: int, runs: string, durations: string)
    requires verb == "POST" && Families(route, runs, durations)
    ensures Operation(route).Some? &&
            PlanEnds(PlanningPlan(Operation(route).value, StatusResult(status)), runs, durations, verb, route, status)
  {
    OperationNames(route, runs, durations);
    OperationIsRecovery(route);
  }

  predicate PlanEnds(rest: seq<Update>, runs: string, durations: string, verb: string, route: string, status: int) {
    var result := map["result" := if 200 <= status < 400 then "success" else "error"];
    |rest| >= 2 && rest[0] == Inc(runs, result) && rest[|rest| - 1] == Obs(durations, result) &&
    (if IsFailedRecovery(verb, route, status)
     then |rest| == 3 && rest[1] == Inc("recovery_simulation_failed_total", map[]) else |rest| == 2)
  }

  /** The status label of the code with these three digits. */
  lemma StatusDigits(a: nat, b: nat, c: nat)
    requires 1 <= a <= 9 && b <= 9 && c <= 9
    ensures Itoa(100 * a + 10 * b + c) == ['0' + a as char, '0' + b as char, '0' + c as char]
    ensures Itoa(-(100 * a + 10 * b + c)) == ['-'] + Itoa(100 * a + 10 * b + c)
  {
    var n := 100 * a + 10 * b + c;
    assert n / 10 == 10 * a + b && n % 10 == c;
    assert (10 * a + b) / 10 == a && (10 * a + b) % 10 == b;
    assert Digits(a) == ['0' + a as char];
    assert Digits(10 * a + b) == Digits(a) + ['0' + b as char];
    assert Digits(n) == Digits(10 * a + b) + ['0' + c as char];
  }

  // ---------------------------------------------------------------- many requests and a scrape

  datatype World = World(counters: Counters, histograms: Histograms, requests: seq<Request>)

  ghost predicate Planned(r: Request) {
    r.plan == Plan(r.verb, r.route, r.status) && 100 <= r.status <= 999
  }

  /** A request arrives, or one of them makes its next update under the registry's lock. Every
      state between two such moves is what some scrape can copy. */
  ghost predicate Moves(printable: char -> bool, a: World, b: World) {
    (exists r :: Arrives(a, r, b)) || exists i: nat, seconds: real :: Records(printable, a, i, seconds, b)
  }

  ghost predicate Arrives(a: World, r: Request, b: World) {
    r.done == 0 && Planned(r) && b == a.(requests := a.requests + [r])
  }

  function Later(requests: seq<Request>, i: nat): seq<Request>
    requires i < |requests|
  {
    requests[i := requests[i].(done := requests[i].done + 1)]
  }

  ghost predicate Records(printable: char -> bool, a: World, i: nat, seconds: real, b: World) {
    i < |a.requests| && a.requests[i].done < |a.requests[i].plan| && Sized(a.histograms) &&
    match a.requests[i].plan[a.requests[i].done]
    case Inc(name, labels) =>
      b == World(Bumped(a.counters, name, Key(printable, labels)), a.histograms, Later(a.requests, i))
    case Obs(name, labels) =>
      b == World(a.counters, Timed(a.histograms, name, Key(printable, labels), seconds), Later(a.requests, i))
  }

  ghost predicate Run(printable: char -> bool, run: seq<World>) {
    |run| > 0 && run[0] == World(map[], map[], []) && forall t :: 0 <= t < |run| - 1 ==>
      Moves(printable, run[t], run[t + 1])
  }

  /** How often an update occurs in a list. */
  function Occurs(updates: seq<Update>, u: Update): nat {
    if updates == [] then 0 else (if updates[0] == u then 1 else 0) + Occurs(updates[1..], u)
  }

  function Made(r: Request): seq<Update> {
    if r.done <= |r.plan| then r.plan[..r.done] else r.plan
  }

  /** How often the requests have made an update. */
  function Total(requests: seq<Request>, u: Update): nat {
    if requests == [] then 0 else Occurs(Made(requests[0]), u) + Total(requests[1..], u)
  }

  /** The value a scrape shows for an update: its counter, or the count of its histogram. */
  ghost function Value(printable: char -> bool, w: World, u: Update): nat {
    match u
    case Inc(name, labels) => Counter(w.counters, name, Key(printable, labels))
    case Obs(name, labels) => Observed(w.histograms, name, Key(printable, labels)).count
  }

  ghost predicate PlainPlans(requests: seq<Request>) {
    forall i, j :: 0 <= i < |requests| && 0 <= j < |requests[i].plan| ==> PlainNames(requests[i].plan[j].labels)
  }

  /** Every value counts exactly the updates made, so no two label sets share a series. */
  ghost predicate Exact(printable: char -> bool, w: World) {
    forall u: Update :: PlainNames(u.labels) ==> Value(printable, w, u) == Total(w.requests, u)
  }

  ghost predicate WellFormed(w: World) {
    Sized(w.histograms) && PlainPlans(w.requests) && forall i :: 0 <= i < |w.requests| ==>
      w.requests[i].done <= |w.requests[i].plan|
  }

  lemma PlanIsPlain(verb: string, route: string, status: int)
    ensures var plan := Plan(verb, route, status); forall i :: 0 <= i < |plan| ==> PlainNames(plan[i].labels)
  {
    StatusLabelsArePlain(verb, route, status);
    NoEqualsIsPlain("result");
  }

  lemma {:induction false} OccursSnoc(updates: seq<Update>, last: Update, u: Update)
    ensures Occurs(updates + [last], u) == Occurs(updates, u) + (if last == u then 1 else 0)
  {
    if updates != [] {
      assert (updates + [last])[1..] == updates[1..] + [last];
      OccursSnoc(updates[1..], last, u);
    }
  }

  lemma {:induction false} TotalLater(requests: seq<Request>, i: nat, u: Update)
    requires i < |requests| && requests[i].done < |requests[i].plan|
    ensures Total(Later(requests, i), u) ==
              Total(requests, u) + (if requests[i].plan[requests[i].done] == u then 1 else 0)
  {
    var r := requests[i];
    if i == 0 {
      var later := r.(done := r.done + 1);
      assert Made(later) == Made(r) + [r.plan[r.done]];
      OccursSnoc(Made(r), r.plan[r.done], u);
      assert Later(requests, 0)[1..] == requests[1..];
    } else {
      assert Later(requests, i)[1..] == Later(requests[1..], i - 1);
      TotalLater(requests[1..], i - 1, u);
    }
  }

  lemma {:induction false} TotalArrival(requests: seq<Request>, r: Request, u: Update)
    requires r.done == 0
    ensures Total(requests + [r], u) == Total(requests, u)
  {
    if requests == [] {
      assert requests + [r] == [r] && [r][1..] == [] && Made(r) == [];
    } else {
      assert (requests + [r])[1..] == requests[1..] + [r];
      TotalArrival(requests[1..], r, u);
    }
  }

  lemma ValueAfter(printable: char -> bool, a: World, i: nat, seconds: real, b: World, u: Update)
    requires WellFormed(a) && Records(printable, a, i, seconds, b) && PlainNames(u.labels)
    ensures var made := a.requests[i].plan[a.requests[i].done];
            Value(printable, b, u) == Value(printable, a, u) + (if made == u then 1 else 0)
  {
    var made := a.requests[i].plan[a.requests[i].done];
    KeysAreEqualIff(printable, made.labels, u.labels);
  }

  lemma RecordKeepsExact(printable: char -> bool, a: World, i: nat, seconds: real, b: World)
    requires WellFormed(a) && Exact(printable, a) && Records(printable, a, i, seconds, b)
    ensures Exact(printable, b)
  {
    forall u: Update | PlainNames(u.labels) ensures Value(printable, b, u) == Total(b.requests, u) {
      ValueAfter(printable, a, i, seconds, b, u);
      TotalLater(a.requests, i, u);
    }
  }

  lemma RecordKeepsForm(printable: char -> bool, a: World, i: nat, seconds: real, b: World)
    requires WellFormed(a) && Records(printable, a, i, seconds, b)
    ensures WellFormed(b)
  {
    assert forall j :: 0 <= j < |b.requests| ==> b.requests[j].plan == a.requests[j].plan;
  }

  lemma ArrivalKeeps(printable: char -> bool, a: World, r: Request, b: World)
    requires WellFormed(a) && Exact(printable, a) && Arrives(a, r, b)
    ensures WellFormed(b) && Exact(printable, b)
  {
    PlanIsPlain(r.verb, r.route, r.status);
    forall u: Update | PlainNames(u.labels) ensures Value(printable, b, u) == Total(b.requests, u) {
      TotalArrival(a.requests, r, u);
    }
  }

  ghost predicate AllPlanned(requests: seq<Request>) {
    forall i :: 0 <= i < |requests| ==> Planned(requests[i])
  }

  lemma MoveKeepsPlanned(printable: char -> bool, a: World, b: World)
    requires AllPlanned(a.requests) && Moves(printable, a, b)
    ensures AllPlanned(b.requests)
  {}

  /** No update is lost, doubled or credited to another series, in any interleaving. */
  lemma {:induction false} RunIsExact(printable: char -> bool, run: seq<World>)
    requires Run(printable, run)
    ensures var w := run[|run| - 1]; WellFormed(w) && Exact(printable, w) && AllPlanned(w.requests)
  {
    if |run| > 1 {
      var n := |run| - 1;
      assert Run(printable, run[..n]) by {
        forall t | 0 <= t < n - 1 ensures Moves(printable, run[..n][t], run[..n][t + 1]) {
          assert Moves(printable, run[t], run[t + 1]);
        }
      }
      RunIsExact(printable, run[..n]);
      var a, b := run[n - 1], run[n];
      assert Moves(printable, run[n - 1], run[n - 1 + 1]);
      MoveKeepsPlanned(printable, a, b);
      if r :| Arrives(a, r, b) {
        ArrivalKeeps(printable, a, r, b);
      } else {
        var i: nat, seconds: real :| Records(printable, a, i, seconds, b);
        RecordKeepsExact(printable, a, i, seconds, b);
        RecordKeepsForm(printable, a, i, seconds, b);
      }
    }
  }

  /** Every request can be served to its end: a run with this request alone makes all its updates. */
  lemma Served(printable: char -> bool, verb: string, route: string, status: nat, seconds: real)
      returns (run: seq<World>)
    requires 100 <= status <= 999
    ensures var plan := Plan(verb, route, status);
            Run(printable, run) && run[|run| - 1].requests == [Request(verb, route, status, plan, |plan|)] &&
            AllDone(run[|run| - 1].requests)
  {
    run := ServedUpTo(printable, verb, route, status, seconds, |Plan(verb, route, status)|);
  }

  lemma {:induction false} ServedUpTo(printable: char -> bool, verb: string, route: string, status: nat,
                                      seconds: real, done: nat)
      returns (run: seq<World>)
    requires 100 <= status <= 999 && done <= |Plan(verb, route, status)|
    ensures Run(printable, run)
    ensures run[|run| - 1].requests == [Request(verb, route, status, Plan(verb, route, status), done)]
  {
    var plan := Plan(verb, route, status);
    if done == 0 {
      var r := Request(verb, route, status, plan, 0);
      run := [World(map[], map[], []), World(map[], map[], [r])];
      assert Arrives(run[0], r, run[1]);
    } else {
      var before := ServedUpTo(printable, verb, route, status, seconds, done - 1);
      RunIsExact(printable, before);
      var w := before[|before| - 1];
      var next := NextWorld(printable, w, 0, seconds);
      run := RunSnoc(printable, before, next);
    }
  }

  lemma NextWorld(printable: char -> bool, w: World, i: nat, seconds: real) returns (next: World)
    requires WellFormed(w) && i < |w.requests| && w.requests[i].done < |w.requests[i].plan|
    ensures Records(printable, w, i, seconds, next) && next.requests == Later(w.requests, i)
  {
    next := match w.requests[i].plan[w.requests[i].done]
      case Inc(name, labels) =>
        World(Bumped(w.counters, name, Key(printable, labels)), w.histograms, Later(w.requests, i))
      case Obs(name, labels) =>
        World(w.counters, Timed(w.histograms, name, Key(printable, labels), seconds), Later(w.requests, i));
  }

  lemma RunSnoc(printable: char -> bool, before: seq<World>, next: World) returns (run: seq<World>)
    requires Run(printable, before) && Moves(printable, before[|before| - 1], next)
    ensures Run(printable, run) && run == before + [next]
  {
    run := before + [next];
    forall t | 0 <= t < |run| - 1 ensures Moves(printable, run[t], run[t + 1]) {
      if t < |before| - 1 {
        assert Moves(printable, before[t], before[t + 1]);
      }
    }
  }

  // ---------------------------------------------------------------- what scrapes show

  /** The sum of `http_requests_total` over these statuses, for one method and route. */
  ghost function RequestsOverStatus(printable: char -> bool, w: World, verb: string, route: string,
                                    statuses: seq<nat>): nat
  {
    if statuses == [] then 0
    else
      Value(printable, w, Inc(HTTP_REQUESTS, StatusLabels(verb, route, statuses[0]))) +
      RequestsOverStatus(printable, w, verb, route, statuses[1..])
  }

  predicate At(r: Request, verb: string, route: string) {
    r.verb == verb && r.route == route
  }

  /** Requests of a method and route between their two generic updates. */
  function Between(requests: seq<Request>, verb: string, route: string): nat {
    if requests == [] then 0
    else (if At(requests[0], verb, route) && requests[0].done == 1 then 1 else 0) + Between(requests[1..], verb, route)
  }

  /** The same sum over what the requests made. */
  function TotalOverStatus(requests: seq<Request>, verb: string, route: string, statuses: seq<nat>): nat
    decreases |statuses|
  {
    if statuses == [] then 0
    else
      Total(requests, Inc(HTTP_REQUESTS, StatusLabels(verb, route, statuses[0]))) +
      TotalOverStatus(requests, verb, route, statuses[1..])
  }

  lemma {:induction false} ValuesAreTotals(printable: char -> bool, w: World, verb: string, route: string,
                                           statuses: seq<nat>)
    requires Exact(printable, w)
    ensures RequestsOverStatus(printable, w, verb, route, statuses) ==
              TotalOverStatus(w.requests, verb, route, statuses)
  {
    if statuses != [] {
      var u := Inc(HTTP_REQUESTS, StatusLabels(verb, route, statuses[0]));
      StatusLabelsArePlain(verb, route, statuses[0]);
      assert Value(printable, w, u) == Total(w.requests, u);
      ValuesAreTotals(printable, w, verb, route, statuses[1..]);
    }
  }

  lemma StatusLabelsArePlain(verb: string, route: string, status: int)
    ensures PlainNames(StatusLabels(verb, route, status)) && PlainNames(RouteLabels(verb, route))
  {
    NoEqualsIsPlain("method");
    NoEqualsIsPlain("route");
    NoEqualsIsPlain("status");
  }

  lemma StatusLabelsDiffer(verb: string, route: string, status: nat, verb': string, route': string, status': nat)
    ensures StatusLabels(verb, route, status) == StatusLabels(verb', route', status') <==>
            verb == verb' && route == route' && status == status'
  {
    var a, b := StatusLabels(verb, route, status), StatusLabels(verb', route', status');
    assert a["method"] == verb && a["route"] == route && a["status"] == Digits(status);
    assert b["method"] == verb' && b["route"] == route' && b["status"] == Digits(status');
    DigitsRoundTrip(status);
    DigitsRoundTrip(status');
  }

  lemma {:induction false} OccursOnce(plan: seq<Update>, n: nat, k: nat, u: Update)
    requires n <= |plan| && forall i :: 0 <= i < |plan| && i != k ==> plan[i] != u
    ensures Occurs(plan[..n], u) == if k < n && plan[k] == u then 1 else 0
  {
    if n > 0 {
      assert plan[..n] == plan[..n - 1] + [plan[n - 1]];
      OccursSnoc(plan[..n - 1], plan[n - 1], u);
      OccursOnce(plan, n - 1, k, u);
    }
  }

  /** The names of the planning metrics are not those of the generic ones. */
  lemma OtherNames(operation: string, result: string)
    requires operation in OPERATIONS
    ensures forall u :: u in PlanningPlan(operation, result) ==> u.name != HTTP_REQUESTS && u.name != HTTP_DURATION
  {
    assert HTTP_REQUESTS[0] == HTTP_DURATION[0] == 'h';
    Initials(operation);
    assert "recovery_simulation_failed_total"[0] == 'r';
  }

  lemma Initials(operation: string)
    requires operation in OPERATIONS
    ensures var initial := operation[0];
            initial != 'h' && (initial == 'r' <==> operation == RECOVERY) &&
            RunsName(operation) != "" && RunsName(operation)[0] == initial &&
            DurationName(operation) != "" && DurationName(operation)[0] == initial
  {}

  lemma PlanStart(verb: string, route: string, status: int)
    ensures var plan := Plan(verb, route, status);
            |plan| >= 2 && plan[0] == Inc(HTTP_REQUESTS, StatusLabels(verb, route, status)) &&
            plan[1] == Obs(HTTP_DURATION, RouteLabels(verb, route)) &&
            forall i :: 2 <= i < |plan| ==> plan[i].name != HTTP_REQUESTS && plan[i].name != HTTP_DURATION
  {
    if verb == "POST" && Operation(route).Some? {
      var rest := PlanningPlan(Operation(route).value, StatusResult(status));
      OtherNames(Operation(route).value, StatusResult(status));
      forall i | 0 <= i < |rest| ensures rest[i] in rest {}
    }
  }

  lemma TotalCons(r: Request, rest: seq<Request>, u: Update)
    ensures Total([r] + rest, u) == Occurs(Made(r), u) + Total(rest, u)
  {
    assert ([r] + rest)[1..] == rest;
  }

  /** What one request adds to the sum over statuses and to the count of durations. */
  lemma {:induction false} OneOverStatus(r: Request, verb: string, route: string, statuses: seq<nat>)
    requires Planned(r) && r.done <= |r.plan| && Distinct(statuses)
    ensures TotalOverStatus([r], verb, route, statuses) ==
              if At(r, verb, route) && r.done >= 1 && r.status in statuses then 1 else 0
  {
    if statuses != [] {
      OneOverStatus(r, verb, route, statuses[1..]);
      var status := statuses[0];
      var u := Inc(HTTP_REQUESTS, StatusLabels(verb, route, status));
      PlanStart(r.verb, r.route, r.status);
      OccursOnce(r.plan, r.done, 0, u);
      StatusLabelsDiffer(r.verb, r.route, r.status, verb, route, status);
      TotalCons(r, [], u);
      assert [r] + [] == [r];
      DistinctHead(statuses, r.status);
    }
  }

  lemma {:induction false} OverStatusCons(r: Request, rest: seq<Request>, verb: string, route: string,
                                          statuses: seq<nat>)
    ensures TotalOverStatus([r] + rest, verb, route, statuses) ==
              TotalOverStatus([r], verb, route, statuses) + TotalOverStatus(rest, verb, route, statuses)
    decreases |statuses|
  {
    if statuses != [] {
      OverStatusCons(r, rest, verb, route, statuses[1..]);
      var u := Inc(HTTP_REQUESTS, StatusLabels(verb, route, statuses[0]));
      TotalCons(r, rest, u);
      TotalCons(r, [], u);
      assert [r] + [] == [r];
    }
  }

  lemma OneDuration(r: Request, verb: string, route: string)
    requires Planned(r) && r.done <= |r.plan|
    ensures Occurs(Made(r), Obs(HTTP_DURATION, RouteLabels(verb, route))) ==
              if At(r, verb, route) && r.done >= 2 then 1 else 0
  {
    var u := Obs(HTTP_DURATION, RouteLabels(verb, route));
    PlanStart(r.verb, r.route, r.status);
    OccursOnce(r.plan, r.done, 1, u);
    var a, b := RouteLabels(verb, route), RouteLabels(r.verb, r.route);
    assert a["method"] == verb && a["route"] == route && b["method"] == r.verb && b["route"] == r.route;
  }

  lemma {:induction false} TotalsDifferByBetween(requests: seq<Request>, verb: string, route: string,
                                                 statuses: seq<nat>)
    requires AllPlanned(requests) && forall i :: 0 <= i < |requests| ==> requests[i].done <= |requests[i].plan|
    requires Distinct(statuses) && forall i :: 0 <= i < |requests| ==> requests[i].status in statuses
    ensures TotalOverStatus(requests, verb, route, statuses) ==
              Total(requests, Obs(HTTP_DURATION, RouteLabels(verb, route))) + Between(requests, verb, route)
  {
    if requests == [] {
      NothingOverStatus(verb, route, statuses);
    } else {
      var r, rest := requests[0], requests[1..];
      assert requests == [r] + rest;
      OverStatusCons(r, rest, verb, route, statuses);
      OneOverStatus(r, verb, route, statuses);
      OneDuration(r, verb, route);
      TotalsDifferByBetween(rest, verb, route, statuses);
    }
  }

  lemma {:induction false} NothingOverStatus(verb: string, route: string, statuses: seq<nat>)
    ensures TotalOverStatus([], verb, route, statuses) == 0
  {
    if statuses != [] {
      NothingOverStatus(verb, route, statuses[1..]);
    }
  }

  /** The status codes there are. */
  function Statuses(): seq<nat> {
    seq(900, i requires 0 <= i => 100 + i)
  }

  /** Scrape consistency: at every moment of every run, for every method and route, the requests
      counted over all statuses exceed the observed durations by exactly the number of requests
      that stand between the two updates. */
  lemma ScrapeIsConsistent(printable: char -> bool, run: seq<World>, verb: string, route: string)
    requires Run(printable, run)
    ensures var w := run[|run| - 1];
            RequestsOverStatus(printable, w, verb, route, Statuses()) ==
              Value(printable, w, Obs(HTTP_DURATION, RouteLabels(verb, route))) + Between(w.requests, verb, route)
  {
    RunIsExact(printable, run);
    var w := run[|run| - 1];
    forall i | 0 <= i < |w.requests| ensures w.requests[i].status in Statuses() {
      assert Planned(w.requests[i]);
      assert Statuses()[w.requests[i].status - 100] == w.requests[i].status;
    }
    ScrapeOver(printable, w, verb, route, Statuses());
  }

  lemma ScrapeOver(printable: char -> bool, w: World, verb: string, route: string, statuses: seq<nat>)
    requires Exact(printable, w) && WellFormed(w) && AllPlanned(w.requests)
    requires Distinct(statuses) && forall i :: 0 <= i < |w.requests| ==> w.requests[i].status in statuses
    ensures RequestsOverStatus(printable, w, verb, route, statuses) ==
              Value(printable, w, Obs(HTTP_DURATION, RouteLabels(verb, route))) + Between(w.requests, verb, route)
  {
    ValuesAreTotals(printable, w, verb, route, statuses);
    StatusLabelsArePlain(verb, route, 0);
    var u := Obs(HTTP_DURATION, RouteLabels(verb, route));
    assert Value(printable, w, u) == Total(w.requests, u);
    TotalsDifferByBetween(w.requests, verb, route, statuses);
  }

  // ---------------------------------------------------------------- recovery simulations

  function FailedRuns(): Update { Inc("recovery_simulation_runs_total", ResultLabels("error")) }

  function Failures(): Update { Inc("recovery_simulation_failed_total", map[]) }

  function FailedDurations(): Update { Obs("recovery_simulation_duration_seconds", ResultLabels("error")) }

  /** A POST to the simulation route answered outside 200 to 399. */
  predicate IsFailedRecovery(verb: string, route: string, status: int) {
    verb == "POST" && route == "/api/recovery-scenarios/{id}/simulate" && !(200 <= status < 400)
  }

  /** Exactly a failed recovery simulation records its run, its failure and its duration, in this
      order; every other request records none of the three. */
  lemma RecoveryPlan(verb: string, route: string, status: int)
    ensures var plan := Plan(verb, route, status);
            if IsFailedRecovery(verb, route, status)
            then plan[2..] == [FailedRuns(), Failures(), FailedDurations()]
            else FailedRuns() !in plan && Failures() !in plan && FailedDurations() !in plan
  {
    PlanStart(verb, route, status);
    PlanRest(verb, route, status);
    var plan := Plan(verb, route, status);
    if verb == "POST" && Operation(route).Some? {
      var op, result := Operation(route).value, StatusResult(status);
      PlanningNames(op, result);
      OperationIsRecovery(route);
    }
    assert forall u :: u in plan ==> u == plan[0] || u == plan[1] || u in plan[2..];
  }

  lemma PlanRest(verb: string, route: string, status: int)
    ensures Plan(verb, route, status)[2..] ==
              if verb == "POST" && Operation(route).Some?
              then PlanningPlan(Operation(route).value, StatusResult(status)) else []
  {}

  lemma OperationIsRecovery(route: string)
    requires Operation(route).Some?
    ensures Operation(route).value == RECOVERY <==> route == "/api/recovery-scenarios/{id}/simulate"
  {
    assert RECOVERY[0] == 'r';
  }

  lemma PlanningNames(op: string, result: string)
    requires op in OPERATIONS && result in {"success", "error"}
    ensures var plan := PlanningPlan(op, result);
            if op == RECOVERY && result == "error"
            then plan == [FailedRuns(), Failures(), FailedDurations()]
            else FailedRuns() !in plan && Failures() !in plan && FailedDurations() !in plan
  {
    if op == RECOVERY {
      RecoveryNames();
      assert ResultLabels("success")["result"] != ResultLabels("error")["result"];
    } else {
      Initials(op);
      assert FailedRuns().name[0] == 'r' && Failures().name[0] == 'r' && FailedDurations().name[0] == 'r';
      assert PlanningPlan(op, result) ==
               [Inc(RunsName(op), ResultLabels(result)), Obs(DurationName(op), ResultLabels(result))];
    }
  }

  lemma OneRecovery(r: Request)
    requires Planned(r) && r.done <= |r.plan|
    ensures var made := Made(r);
            Occurs(made, FailedRuns()) >= Occurs(made, Failures()) >= Occurs(made, FailedDurations()) &&
            (r.done == |r.plan| ==>
             Occurs(made, FailedRuns()) == Occurs(made, Failures()) == Occurs(made, FailedDurations()))
  {
    RecoveryPlan(r.verb, r.route, r.status);
    PlanStart(r.verb, r.route, r.status);
    if r.plan[2..] == [FailedRuns(), Failures(), FailedDurations()] {
      assert r.plan[2] == r.plan[2..][0] && r.plan[3] == r.plan[2..][1] && r.plan[4] == r.plan[2..][2] && |r.plan| == 5;
      DistinctRecovery();
      OccursOnce(r.plan, r.done, 2, FailedRuns());
      OccursOnce(r.plan, r.done, 3, Failures());
      OccursOnce(r.plan, r.done, 4, FailedDurations());
    } else {
      OccursOnce(r.plan, r.done, |r.plan|, FailedRuns());
      OccursOnce(r.plan, r.done, |r.plan|, Failures());
      OccursOnce(r.plan, r.done, |r.plan|, FailedDurations());
    }
  }

  lemma DistinctRecovery()
    ensures FailedRuns() != Failures() && Failures() != FailedDurations() && FailedRuns() != FailedDurations()
  {
    assert FailedRuns().labels["result"] == "error";
    assert FailedRuns().labels != map[];
  }

  ghost predicate AllDone(requests: seq<Request>) {
    forall i :: 0 <= i < |requests| ==> requests[i].done == |requests[i].plan|
  }

  lemma {:induction false} RecoveryTotals(requests: seq<Request>)
    requires AllPlanned(requests) && forall i :: 0 <= i < |requests| ==> requests[i].done <= |requests[i].plan|
    ensures Total(requests, FailedRuns()) >= Total(requests, Failures()) >= Total(requests, FailedDurations())
    ensures AllDone(requests) ==>
              Total(requests, FailedRuns()) == Total(requests, Failures()) == Total(requests, FailedDurations())
  {
    if requests != [] {
      OneRecovery(requests[0]);
      RecoveryTotals(requests[1..]);
    }
  }

  /** At every moment the failed recovery runs, the failures and the failed durations are ordered;
      they are equal whenever no request is in progress. */
  lemma RecoveryIsConsistent(printable: char -> bool, run: seq<World>)
    requires Run(printable, run)
    ensures var w := run[|run| - 1];
            var runs, failures := Value(printable, w, FailedRuns()), Value(printable, w, Failures());
            var durations := Value(printable, w, FailedDurations());
            runs >= failures >= durations && (AllDone(w.requests) ==> runs == failures == durations)
  {
    RunIsExact(printable, run);
    var w := run[|run| - 1];
    NoEqualsIsPlain("result");
    assert PlainNames(FailedRuns().labels) && PlainNames(Failures().labels) && PlainNames(FailedDurations().labels);
    RecoveryTotals(w.requests);
  }
}
