/** The endpoint metrics of the admin service: counters per "method route" key plus the last 512
    latencies, updated once per request under a lock. Latencies are exact rationals. */
module Metrics {
  import opened Percentile
  import Strings

  const MAX_LATENCY_SAMPLES := 512
  const UINT64_SIZE := 0x1_0000_0000_0000_0000

  datatype EndpointCounter = EndpointCounter(
    verb: string,
    route: string,
    count: nat,
    errorCount: nat,
    totalLatency: real,
    maxLatency: real,
    lastLatency: real,
    lastStatus: int,
    lastUpdatedAt: int,
    latencySamples: seq<real>)

  const ZERO_COUNTER := EndpointCounter("", "", 0, 0, 0.0, 0.0, 0.0, 0, 0, [])

  datatype EndpointMetric = EndpointMetric(
    verb: string,
    route: string,
    count: nat,
    errorCount: nat,
    avgLatencyMs: real,
    p95LatencyMs: real,
    p99LatencyMs: real,
    maxLatencyMs: real,
    lastLatencyMs: real,
    lastStatusCode: int,
    updatedAt: int)

  /** One finished request. */
  datatype Call = Call(verb: string, route: string, status: int, latencyMs: real, at: int)

  function Key(verb: string, route: string): string {
    verb + " " + route
  }

  function LastOf(s: seq<real>): seq<real> {
    if |s| > MAX_LATENCY_SAMPLES then s[|s| - MAX_LATENCY_SAMPLES..] else s
  }

  function Bumped(cur: EndpointCounter, c: Call): EndpointCounter {
    EndpointCounter(
      c.verb,
      c.route,
      (cur.count + 1) % UINT64_SIZE,
      if c.status >= 400 then (cur.errorCount + 1) % UINT64_SIZE else cur.errorCount,
      cur.totalLatency + c.latencyMs,
      if c.latencyMs > cur.maxLatency then c.latencyMs else cur.maxLatency,
      c.latencyMs,
      c.status,
      c.at,
      LastOf(cur.latencySamples + [c.latencyMs]))
  }

  function Recorded(endpoints: map<string, EndpointCounter>, c: Call): map<string, EndpointCounter> {
    var k := Key(c.verb, c.route);
    endpoints[k := Bumped(if k in endpoints then endpoints[k] else ZERO_COUNTER, c)]
  }

  function Mean(total: real, count: nat): real {
    if count > 0 then total / count as real else 0.0
  }

  function MetricOf(v: EndpointCounter): EndpointMetric {
    EndpointMetric(
      v.verb,
      v.route,
      v.count,
      v.errorCount,
      Mean(v.totalLatency, v.count),
      Value(v.latencySamples, 0.95),
      Value(v.latencySamples, 0.99),
      v.maxLatency,
      v.lastLatency,
      v.lastStatus,
      v.lastUpdatedAt)
  }

  function Snapshotted(endpoints: map<string, EndpointCounter>): map<string, EndpointMetric> {
    map k | k in endpoints :: MetricOf(endpoints[k])
  }

  class MetricsStore {
    var endpoints: map<string, EndpointCounter>

    constructor ()
      ensures endpoints == map[]
    {
      endpoints := map[];
    }

    method Record(verb: string, route: string, status: int, latencyMs: real, now: int)
      modifies this
      ensures endpoints == Recorded(old(endpoints), Call(verb, route, status, latencyMs, now))
    {
      var key := verb + " " + route;
      var cur := if key in endpoints then endpoints[key] else ZERO_COUNTER;
      cur := cur.(verb := verb, route := route, count := (cur.count + 1) % UINT64_SIZE);
      if status >= 400 {
        cur := cur.(errorCount := (cur.errorCount + 1) % UINT64_SIZE);
      }
      cur := cur.(totalLatency := cur.totalLatency + latencyMs);
      if latencyMs > cur.maxLatency {
        cur := cur.(maxLatency := latencyMs);
      }
      cur := cur.(lastLatency := latencyMs, lastStatus := status, lastUpdatedAt := now);
      cur := cur.(latencySamples := cur.latencySamples + [latencyMs]);
      if |cur.latencySamples| > MAX_LATENCY_SAMPLES {
        cur := cur.(latencySamples := cur.latencySamples[|cur.latencySamples| - MAX_LATENCY_SAMPLES..]);
      }
      endpoints := endpoints[key := cur];
    }

    method Snapshot() returns (out: map<string, EndpointMetric>)
      ensures out == Snapshotted(endpoints)
    {
      out := map[];
      var todo := endpoints.Keys;
      while todo != {}
        invariant todo <= endpoints.Keys
        invariant out.Keys == endpoints.Keys - todo
        invariant forall k :: k in out ==> out[k] == MetricOf(endpoints[k])
        decreases todo
      {
        var k :| k in todo;
        var v := endpoints[k];
        var avg := 0.0;
        if v.count > 0 {
          avg := v.totalLatency / v.count as real;
        }
        var p95 := Percentile.Percentile(v.latencySamples, 0.95);
        var p99 := Percentile.Percentile(v.latencySamples, 0.99);
        out := out[k := EndpointMetric(v.verb, v.route, v.count, v.errorCount, avg, p95, p99,
                                       v.maxLatency, v.lastLatency, v.lastStatus, v.lastUpdatedAt)];
        todo := todo - {k};
      }
    }
  }

  // ---------- The state after a whole history of calls ----------

  function Replay(calls: seq<Call>): map<string, EndpointCounter> {
    if calls == [] then map[] else Recorded(Replay(calls[..|calls| - 1]), calls[|calls| - 1])
  }

  /** The calls of one endpoint, oldest first. */
  function Matching(calls: seq<Call>, verb: string, route: string): seq<Call> {
    if calls == [] then []
    else
      var c := calls[|calls| - 1];
      Matching(calls[..|calls| - 1], verb, route) + if c.verb == verb && c.route == route then [c] else []
  }

  function Latencies(calls: seq<Call>): seq<real> {
    seq(|calls|, i requires 0 <= i < |calls| => calls[i].latencyMs)
  }

  function Sum(s: seq<real>): real {
    if s == [] then 0.0 else Sum(s[..|s| - 1]) + s[|s| - 1]
  }

  function Errors(calls: seq<Call>): nat {
    |set i | 0 <= i < |calls| && calls[i].status >= 400|
  }

  /** The greatest latency, or zero when none is positive. */
  ghost predicate IsMax(s: seq<real>, m: real) {
    && m >= 0.0
    && (m == 0.0 || m in s)
    && forall k :: 0 <= k < |s| ==> s[k] <= m
  }

  /** What an endpoint's reported metric must be, read off the endpoint's own calls. */
  ghost predicate Describes(m: EndpointMetric, verb: string, route: string, calls: seq<Call>)
    requires calls != []
  {
    var last := calls[|calls| - 1];
    var all := Latencies(calls);
    var recent := if |all| > 512 then all[|all| - 512..] else all;
    && m.verb == verb && m.route == route
    && m.count == |calls| % 0x1_0000_0000_0000_0000
    && m.errorCount == Errors(calls) % 0x1_0000_0000_0000_0000
    && m.avgLatencyMs == Mean(Sum(all), m.count)
    && m.p95LatencyMs == Value(recent, 0.95)
    && m.p99LatencyMs == Value(recent, 0.99)
    && IsMax(all, m.maxLatencyMs)
    && m.lastLatencyMs == last.latencyMs
    && m.lastStatusCode == last.status
    && m.updatedAt == last.at
  }

  /** An HTTP method is a token, which has no space (section 9.1 of RFC 9110). */
  predicate IsToken(verb: string) {
    ' ' !in verb
  }

  lemma KeysInjective(v1: string, r1: string, v2: string, r2: string)
    requires IsToken(v1) && IsToken(v2)
    requires Key(v1, r1) == Key(v2, r2)
    ensures v1 == v2 && r1 == r2
  {
    assert Key(v1, r1) == Strings.Join(v1, ' ', r1);
    assert Key(v2, r2) == Strings.Join(v2, ' ', r2);
    Strings.JoinInjective(v1, r1, v2, r2, ' ');
  }

  /** The two counters wrap around. */
  ghost predicate Tallies(v: EndpointCounter, calls: seq<Call>) {
    v.count == |calls| % UINT64_SIZE && v.errorCount == Errors(calls) % UINT64_SIZE
  }

  /** What the stored counter of an endpoint must be, read off the endpoint's own calls. */
  ghost predicate Counts(v: EndpointCounter, verb: string, route: string, calls: seq<Call>) {
    var all := Latencies(calls);
    && Tallies(v, calls)
    && v.totalLatency == Sum(all)
    && v.latencySamples == LastOf(all)
    && IsMax(all, v.maxLatency)
    && (calls != [] ==>
          var last := calls[|calls| - 1];
          && v.verb == verb && v.route == route
          && v.lastLatency == last.latencyMs && v.lastStatus == last.status && v.lastUpdatedAt == last.at)
  }

  lemma ErrorsSnoc(calls: seq<Call>, c: Call)
    ensures Errors(calls + [c]) == Errors(calls) + if c.status >= 400 then 1 else 0
  {
    var both := calls + [c];
    var before := set i | 0 <= i < |calls| && calls[i].status >= 400;
    var after := set i | 0 <= i < |both| && both[i].status >= 400;
    assert after == before + if c.status >= 400 then {|calls|} else {};
  }

  lemma LatenciesSnoc(calls: seq<Call>, c: Call)
    ensures Latencies(calls + [c]) == Latencies(calls) + [c.latencyMs]
    ensures Sum(Latencies(calls + [c])) == Sum(Latencies(calls)) + c.latencyMs
  {
    assert Latencies(calls + [c])[..|calls|] == Latencies(calls);
  }

  lemma LastOfSnoc(s: seq<real>, x: real)
    ensures LastOf(LastOf(s) + [x]) == LastOf(s + [x])
  {
  }

  lemma IncrementModulo(n: nat, m: nat)
    requires m > 0
    ensures (n % m + 1) % m == (n + 1) % m
  {
    var q := n / m;
    assert n == q * m + n % m;
    if n % m + 1 < m {
      ModuloOf(q, n % m + 1, m);
    } else {
      assert n + 1 == (q + 1) * m;
      ModuloOf(q + 1, 0, m);
    }
  }

  lemma ModuloOf(q: nat, r: nat, m: nat)
    requires r < m
    ensures (q * m + r) % m == r
  {
    var n := q * m + r;
    var d := n / m - q;
    assert d * m == r - n % m;
    MultipleIsLarge(d, m);
  }

  lemma MultipleIsLarge(d: int, m: int)
    requires m > 0
    ensures d >= 1 ==> d * m >= m
    ensures d <= -1 ==> d * m <= -m
  {
  }

  lemma BumpCounts(v: EndpointCounter, calls: seq<Call>, c: Call)
    requires Counts(v, c.verb, c.route, calls)
    ensures Counts(Bumped(v, c), c.verb, c.route, calls + [c])
  {
    BumpTallies(v, calls, c);
    LatenciesSnoc(calls, c);
    LastOfSnoc(Latencies(calls), c.latencyMs);
    MaxSnoc(Latencies(calls), v.maxLatency, c.latencyMs);
  }

  lemma BumpTallies(v: EndpointCounter, calls: seq<Call>, c: Call)
    requires Tallies(v, calls)
    ensures Tallies(Bumped(v, c), calls + [c])
  {
    ErrorsSnoc(calls, c);
    WrappedNext(|calls|);
    WrappedNext(Errors(calls));
  }

  lemma WrappedNext(n: nat)
    ensures (n % UINT64_SIZE + 1) % UINT64_SIZE == (n + 1) % UINT64_SIZE
  {
    IncrementModulo(n, UINT64_SIZE);
  }

  lemma MaxSnoc(s: seq<real>, m: real, x: real)
    requires IsMax(s, m)
    ensures IsMax(s + [x], if x > m then x else m)
  {
    assert (s + [x])[|s|] == x;
  }

  lemma {:induction false} ReplayCounts(calls: seq<Call>, verb: string, route: string)
    requires IsToken(verb)
    requires forall c :: c in calls ==> IsToken(c.verb)
    ensures Key(verb, route) in Replay(calls) <==> Matching(calls, verb, route) != []
    ensures Key(verb, route) in Replay(calls) ==>
              Counts(Replay(calls)[Key(verb, route)], verb, route, Matching(calls, verb, route))
  {
    if calls != [] {
      var before := calls[..|calls| - 1];
      var c := calls[|calls| - 1];
      ReplayCounts(before, verb, route);
      if c.verb == verb && c.route == route {
        var k := Key(verb, route);
        var cur := if k in Replay(before) then Replay(before)[k] else ZERO_COUNTER;
        assert Latencies([]) == [];
        BumpCounts(cur, Matching(before, verb, route), c);
      } else {
        assert Matching(calls, verb, route) == Matching(before, verb, route);
        if Key(c.verb, c.route) == Key(verb, route) {
          KeysInjective(c.verb, c.route, verb, route);
        }
      }
    }
  }

  /** The bounded state refines the full history: each endpoint is reported exactly when it was called,
      and its report describes its own calls and no others. */
  lemma SnapshotDescribesHistory(calls: seq<Call>, verb: string, route: string)
    requires IsToken(verb)
    requires forall c :: c in calls ==> IsToken(c.verb)
    ensures
      var mine := Matching(calls, verb, route);
      var shot := Snapshotted(Replay(calls));
      (verb + " " + route in shot <==> mine != []) &&
      (mine != [] ==> Describes(shot[verb + " " + route], verb, route, mine))
  {
    ReplayCounts(calls, verb, route);
  }

  lemma {:induction false} ReplayKeys(calls: seq<Call>, k: string)
    requires k in Replay(calls)
    ensures exists c :: c in calls && k == Key(c.verb, c.route)
  {
    var before := calls[..|calls| - 1];
    var c := calls[|calls| - 1];
    assert c in calls;
    if k != Key(c.verb, c.route) {
      ReplayKeys(before, k);
      var d :| d in before && k == Key(d.verb, d.route);
      assert d in calls;
    }
  }

  lemma LastValueBelowMax(all: seq<real>, p: real, m: real)
    requires IsMax(all, m)
    ensures Value(LastOf(all), p) <= m
  {
    if all != [] {
      ValueIsSample(LastOf(all), p);
      forall x | x in LastOf(all)
        ensures x <= m
      {
        var j :| 0 <= j < |LastOf(all)| && LastOf(all)[j] == x;
        assert x == all[|all| - |LastOf(all)| + j];
      }
    }
  }

  /** In every report the percentiles are ordered and do not exceed the recorded maximum. */
  lemma PercentilesOrdered(calls: seq<Call>, k: string)
    requires forall c :: c in calls ==> IsToken(c.verb)
    requires k in Snapshotted(Replay(calls))
    ensures
      var m := Snapshotted(Replay(calls))[k];
      m.p95LatencyMs <= m.p99LatencyMs <= m.maxLatencyMs
  {
    ReplayKeys(calls, k);
    var c :| c in calls && k == Key(c.verb, c.route);
    ReplayCounts(calls, c.verb, c.route);
    var all := Latencies(Matching(calls, c.verb, c.route));
    MonotoneInP(LastOf(all), 0.95, 0.99);
    LastValueBelowMax(all, 0.99, Replay(calls)[k].maxLatency);
  }

  /** The reported mean is the sum of the endpoint's latencies over the number of its calls if and only if
      there were fewer than 2^64 calls or the sum is zero. */
  lemma MeanIsTrueMean(calls: seq<Call>, verb: string, route: string)
    requires IsToken(verb)
    requires forall c :: c in calls ==> IsToken(c.verb)
    requires Matching(calls, verb, route) != []
    ensures
      var mine := Matching(calls, verb, route);
      var total := Sum(Latencies(mine));
      Key(verb, route) in Snapshotted(Replay(calls)) &&
      (Snapshotted(Replay(calls))[Key(verb, route)].avgLatencyMs == Mean(total, |mine|) <==>
       |mine| < 0x1_0000_0000_0000_0000 || total == 0.0)
  {
    SnapshotDescribesHistory(calls, verb, route);
    MeanOfWrapped(Sum(Latencies(Matching(calls, verb, route))), |Matching(calls, verb, route)|);
  }

  lemma MeanOfWrapped(total: real, n: nat)
    requires n > 0
    ensures Mean(total, n % UINT64_SIZE) == Mean(total, n) <==> n < UINT64_SIZE || total == 0.0
  {
    if n >= UINT64_SIZE {
      MeansDiffer(total, n % UINT64_SIZE, n);
    }
  }

  /** The mean is the number that gives the total when it is taken as often as there are calls. */
  lemma MeanTimesCount(total: real, n: nat)
    requires n > 0
    ensures Mean(total, n) * n as real == total
  {
  }

  lemma MeansDiffer(total: real, k: nat, n: nat)
    requires k < n
    ensures Mean(total, k) == Mean(total, n) <==> total == 0.0
  {
    MeanTimesCount(total, n);
    if k > 0 {
      MeanTimesCount(total, k);
      if Mean(total, k) == Mean(total, n) {
        NoDifference(Mean(total, n), k, n);
      }
    }
  }

  lemma NoDifference(mean: real, k: nat, n: nat)
    requires k < n && mean * k as real == mean * n as real
    ensures mean == 0.0
  {
    assert mean * (n - k) as real == 0.0;
  }

  /** Without that assumption two endpoints share a key exactly when one method, with its route cut at
      another space, reads as the other. */
  lemma KeysCollideIff(v1: string, r1: string, v2: string, r2: string)
    ensures Key(v1, r1) == Key(v2, r2) <==>
            (v1 == v2 && r1 == r2) || Strings.Overlap(v1, r1, v2, r2, ' ') || Strings.Overlap(v2, r2, v1, r1, ' ')
  {
    assert Key(v1, r1) == Strings.Join(v1, ' ', r1);
    assert Key(v2, r2) == Strings.Join(v2, ' ', r2);
    Strings.JoinCollides(v1, r1, v2, r2, ' ');
  }

  lemma KeysCollideWithSpaces()
    ensures Key("A B", "C") == Key("A", "B C") && !IsToken("A B")
  {
    assert "A B" + " " + "C" == "A B C" == "A" + " " + "B C";
    assert "A B"[1] == ' ';
  }
}
