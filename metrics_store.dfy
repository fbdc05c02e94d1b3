/** The metrics store shared by the request handlers: counters, the visitor
    log, the API call timestamps and the start time, with one method per
    handler. Each handler runs under one lock, so each method is one atomic
    step. Wall-clock readings come in as parameters: `now` in seconds (a float
    in the service, a real here) and `clock`, the time of day as HH:MM:SS. */
module Metrics {
  import opened Wrappers
  import opened Uptime
  import opened VisitorLog

  /** What the dashboard page is rendered from. */
  datatype Dashboard = Dashboard(
    requestCount: nat,
    healthChecks: nat,
    uptime: int,
    uptimeFormatted: string,
    recentVisitors: seq<Visitor>)

  /** The counts in the /api response. */
  datatype ApiReport = ApiReport(requestCount: nat, apiCalls: nat, uptimeSeconds: int)

  /** The counts in the /health response. */
  datatype HealthReport = HealthReport(uptimeSeconds: int, checks: nat)

  /** The "statistics" object of the /stats response. */
  datatype Statistics = Statistics(
    totalRequests: nat,
    healthChecks: nat,
    apiCalls: nat,
    uniqueVisitors: nat,
    uptimeSeconds: int,
    uptimeFormatted: string,
    requestsPerMinute: real)

  /** Requests per minute of uptime, and 0 while the uptime is not positive,
      so that a store reset in the current second never divides by zero. */
  function RequestsPerMinute(requests: nat, uptime: int): (rpm: real)
    ensures uptime <= 0 ==> rpm == 0.0
    ensures 0 < uptime ==> rpm * (uptime as real) == (requests as real) * 60.0
    ensures 0.0 <= rpm
  {
    if 0 < uptime then (requests as real) / ((uptime as real) / 60.0) else 0.0
  }

  class MetricsStore {
    var requestCount: nat
    var startTime: real
    var visitors: seq<Visitor>
    var apiCalls: seq<real>
    var healthChecks: nat
    var errors: nat

    /** The store's invariant: at most Capacity visitors are kept, and every
        one has a non-empty address. */
    ghost predicate Valid()
      reads this
    {
      |visitors| <= Capacity && forall v :: v in visitors ==> v.ip != []
    }

    /** The store as the service starts: all counters zero, nothing logged. */
    constructor (now: real)
      ensures Valid()
      ensures requestCount == 0 && healthChecks == 0 && errors == 0
      ensures visitors == [] && apiCalls == [] && startTime == now
    {
      requestCount := 0;
      startTime := now;
      visitors := [];
      apiCalls := [];
      healthChecks := 0;
      errors := 0;
    }

    /** GET /: count the request, log the visitor (dropping the oldest past
        Capacity) and hand back what the dashboard shows. */
    method RecordVisit(remoteAddr: Option<string>, clock: string, now: real) returns (page: Dashboard)
      requires Valid()
      modifies this
      ensures Valid()
      ensures requestCount == old(requestCount) + 1
      ensures visitors == PushVisitor(old(visitors), Visitor(VisitorIp(remoteAddr), clock, now))
      ensures healthChecks == old(healthChecks) && apiCalls == old(apiCalls)
      ensures errors == old(errors) && startTime == old(startTime)
      ensures page.requestCount == requestCount && page.healthChecks == healthChecks
      ensures page.uptime == Elapsed(now, startTime) && page.uptimeFormatted == FormatUptime(page.uptime)
      ensures page.recentVisitors == Reversed(visitors)
    {
      requestCount := requestCount + 1;
      var visitor := Visitor(VisitorIp(remoteAddr), clock, now);
      visitors := visitors + [visitor];
      visitors := Recent(visitors);
      var uptime := Elapsed(now, startTime);
      page := Dashboard(requestCount, healthChecks, uptime, FormatUptime(uptime), Reversed(visitors));
    }

    /** GET /api: count the request and log the call's timestamp. */
    method RecordApiCall(now: real) returns (report: ApiReport)
      requires Valid()
      modifies this
      ensures Valid()
      ensures requestCount == old(requestCount) + 1
      ensures apiCalls == old(apiCalls) + [now]
      ensures visitors == old(visitors) && healthChecks == old(healthChecks)
      ensures errors == old(errors) && startTime == old(startTime)
      ensures report.requestCount == requestCount
      ensures report.apiCalls == |old(apiCalls)| + 1
      ensures report.uptimeSeconds == Elapsed(now, startTime)
    {
      requestCount := requestCount + 1;
      apiCalls := apiCalls + [now];
      report := ApiReport(requestCount, |apiCalls|, Elapsed(now, startTime));
    }

    /** GET /health: count the health check, and nothing else. */
    method RecordHealthCheck(now: real) returns (report: HealthReport)
      requires Valid()
      modifies this
      ensures Valid()
      ensures healthChecks == old(healthChecks) + 1
      ensures requestCount == old(requestCount) && visitors == old(visitors) && apiCalls == old(apiCalls)
      ensures errors == old(errors) && startTime == old(startTime)
      ensures report.checks == healthChecks && report.uptimeSeconds == Elapsed(now, startTime)
    {
      healthChecks := healthChecks + 1;
      report := HealthReport(Elapsed(now, startTime), healthChecks);
    }

    /** GET /stats: read the counters without changing anything. */
    method Stats(now: real) returns (s: Statistics)
      requires Valid()
      ensures s.totalRequests == requestCount && s.healthChecks == healthChecks
      ensures s.apiCalls == |apiCalls|
      ensures s.uniqueVisitors == |Addresses(visitors)|
      ensures s.uniqueVisitors <= |visitors| <= Capacity
      ensures visitors != [] ==> 1 <= s.uniqueVisitors
      ensures s.uptimeSeconds == Elapsed(now, startTime)
      ensures s.uptimeFormatted == FormatUptime(s.uptimeSeconds)
      ensures s.uptimeSeconds <= 0 ==> s.requestsPerMinute == 0.0
      ensures s.requestsPerMinute == RequestsPerMinute(requestCount, s.uptimeSeconds)
    {
      var uptime := Elapsed(now, startTime);
      var unique := |Addresses(visitors)|;
      AddressesBound(visitors);
      var text := FormatUptime(uptime);
      var rpm := RequestsPerMinute(requestCount, uptime);
      s := Statistics(requestCount, healthChecks, |apiCalls|, unique, uptime, text, rpm);
    }

    /** GET /reset: zero the counters, empty both logs and restart the uptime
        clock. The error counter is left as it is. */
    method Reset(now: real)
      requires Valid()
      modifies this
      ensures Valid()
      ensures requestCount == 0 && healthChecks == 0
      ensures visitors == [] && apiCalls == []
      ensures startTime == now
      ensures errors == old(errors)
    {
      requestCount := 0;
      visitors := [];
      apiCalls := [];
      healthChecks := 0;
      startTime := now;
    }
  }

  /** A caller's view of a reset: statistics read in the same second report
      nothing counted and no division by a zero uptime. */
  method ResetThenStats(store: MetricsStore, now: real)
    requires store.Valid()
    modifies store
  {
    store.Reset(now);
    var stats := store.Stats(now + 0.5);
    assert stats.totalRequests == 0 && stats.healthChecks == 0 && stats.uniqueVisitors == 0;
    assert stats.uptimeSeconds == 0 && stats.requestsPerMinute == 0.0;
  }
}
