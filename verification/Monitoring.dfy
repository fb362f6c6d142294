/** The admin overview: a cached response whose check and store are separate critical sections, and
    counts taken by separate queries while messages keep arriving. Times are nanoseconds. */
module Monitoring {
  import opened Channels

  // ---------- The cache ----------

  /** A response, known by the moment its build started; `Blank` is the value before any build. */
  datatype Response = Blank | Built(started: nat)

  datatype Cache = Cache(value: Response, expiresAt: int)

  /** The zero time of Go lies before every clock reading. */
  const EMPTY_CACHE := Cache(Blank, 0)

  function Lookup(cache: Cache, now: nat): Option<Response> {
    if now < cache.expiresAt then Some(cache.value) else None
  }

  function Stored(built: Response, now: nat, ttl: nat): Cache {
    Cache(built, now + ttl)
  }

  class OverviewCache {
    const ttl: nat
    var value: Response
    var expiresAt: int

    ghost function Model(): Cache
      reads this
    {
      Cache(value, expiresAt)
    }

    constructor (ttl: nat)
      ensures this.ttl == ttl && Model() == EMPTY_CACHE
    {
      this.ttl := ttl;
      value, expiresAt := Blank, 0;
    }

    /** The first critical section. */
    method Check(now: nat) returns (hit: Option<Response>)
      ensures hit == Lookup(Model(), now)
    {
      if now < expiresAt {
        return Some(value);
      }
      return None;
    }

    /** The second critical section. */
    method Store(built: Response, now: nat)
      modifies this
      ensures Model() == Stored(built, now, ttl)
    {
      value := built;
      expiresAt := now + ttl;
    }
  }

  /** Where a request is. */
  datatype Pc =
    | Arrived(now: nat)
    | Building(now: nat, started: nat)
    | Cached(now: nat, value: Response)
    | Fresh(now: nat, value: Response)

  datatype State = State(clock: nat, cache: Cache, requests: map<nat, Pc>)

  datatype Step = Tick(delta: nat) | Arrive(t: nat) | Check(t: nat) | Store(t: nat)

  function Init(clock: nat): State {
    State(clock, EMPTY_CACHE, map[])
  }

  /** `slack` bounds the time from the start of a build to its store. */
  predicate Enabled(s: State, step: Step, slack: nat) {
    match step
    case Tick(_) => true
    case Arrive(t) => t !in s.requests
    case Check(t) => t in s.requests && s.requests[t].Arrived?
    case Store(t) =>
      t in s.requests && s.requests[t].Building? && s.clock <= s.requests[t].started + slack
  }

  function Apply(s: State, step: Step, ttl: nat, slack: nat): State
    requires Enabled(s, step, slack)
  {
    match step
    case Tick(delta) => s.(clock := s.clock + delta)
    case Arrive(t) => s.(requests := s.requests[t := Arrived(s.clock)])
    case Check(t) =>
      var now := s.requests[t].now;
      var hit := Lookup(s.cache, now);
      s.(requests := s.requests[t := if hit.Some? then Cached(now, hit.value) else Building(now, s.clock)])
    case Store(t) =>
      var pc := s.requests[t];
      s.(cache := Stored(Built(pc.started), s.clock, ttl),
         requests := s.requests[t := Fresh(pc.now, Built(pc.started))])
  }

  /** Some request has built this response and stored it. */
  ghost predicate WasBuilt(s: State, value: Response) {
    exists t :: t in s.requests && s.requests[t].Fresh? && s.requests[t].value == value
  }

  /** What is stored, or was answered from the store, is what some request built, not before it arrived. */
  ghost predicate Genuine(s: State) {
    && (s.cache.value.Built? ==> WasBuilt(s, s.cache.value))
    && (forall t :: t in s.requests && s.requests[t].Cached? && s.requests[t].value.Built? ==>
          WasBuilt(s, s.requests[t].value))
    && (forall t :: t in s.requests && s.requests[t].Building? ==> s.requests[t].now <= s.requests[t].started)
    && (forall t :: t in s.requests && s.requests[t].Arrived? ==> s.requests[t].now <= s.clock)
    && (forall t :: t in s.requests && s.requests[t].Fresh? ==>
          s.requests[t].value.Built? && s.requests[t].now <= s.requests[t].value.started)
  }

  lemma BuiltStays(s: State, step: Step, ttl: nat, slack: nat, value: Response)
    requires Enabled(s, step, slack) && WasBuilt(s, value)
    ensures WasBuilt(Apply(s, step, ttl, slack), value)
  {
    var t :| t in s.requests && s.requests[t].Fresh? && s.requests[t].value == value;
    assert Apply(s, step, ttl, slack).requests[t] == s.requests[t];
  }

  lemma StepKeepsGenuine(s: State, step: Step, ttl: nat, slack: nat)
    requires Genuine(s) && Enabled(s, step, slack)
    ensures Genuine(Apply(s, step, ttl, slack))
  {
    var after := Apply(s, step, ttl, slack);
    if s.cache.value.Built? {
      BuiltStays(s, step, ttl, slack, s.cache.value);
    }
    if step.Store? {
      assert after.requests[step.t].value == after.cache.value;
    }
    forall t | t in after.requests && after.requests[t].Cached? && after.requests[t].value.Built?
      ensures WasBuilt(after, after.requests[t].value)
    {
      if t in s.requests && s.requests[t].Cached? {
        BuiltStays(s, step, ttl, slack, s.requests[t].value);
      }
    }
  }

  lemma {:induction false} RunIsGenuine(run: seq<State>, steps: seq<Step>, ttl: nat, slack: nat, n: nat)
    requires IsRun(run, steps, ttl, slack) && n < |run|
    ensures Genuine(run[n])
  {
    if n > 0 {
      RunIsGenuine(run, steps, ttl, slack, n - 1);
      StepKeepsGenuine(run[n - 1], steps[n - 1], ttl, slack);
    }
  }

  /** Every answer of every run was built: a fresh one by its own request, after it arrived, and a cached one
      by some other request that stored it. */
  lemma AnswersWereBuilt(run: seq<State>, steps: seq<Step>, ttl: nat, slack: nat, n: nat, t: nat)
    requires IsRun(run, steps, ttl, slack) && n < |run| && t in run[n].requests
    ensures run[n].requests[t].Cached? ==> WasBuilt(run[n], run[n].requests[t].value)
    ensures run[n].requests[t].Fresh? ==>
              run[n].requests[t].value.Built? && run[n].requests[t].now <= run[n].requests[t].value.started
  {
    RunIsGenuine(run, steps, ttl, slack, n);
    RunKeepsInv(run, steps, ttl, slack, n);
  }

  /** A stored response expires no later than `ttl` plus `slack` after its build started. */
  ghost predicate Inv(s: State, ttl: nat, slack: nat) {
    && (s.cache.value.Blank? ==> s.cache.expiresAt == 0)
    && (s.cache.value.Built? ==> s.cache.expiresAt <= s.cache.value.started + slack + ttl)
    && forall t :: t in s.requests && s.requests[t].Cached? ==>
         s.requests[t].value.Built? && s.requests[t].now < s.requests[t].value.started + slack + ttl
  }

  ghost predicate IsRun(run: seq<State>, steps: seq<Step>, ttl: nat, slack: nat) {
    && |run| == |steps| + 1
    && run[0] == Init(run[0].clock)
    && forall i {:trigger steps[i]} :: 0 <= i < |steps| ==>
         Enabled(run[i], steps[i], slack) && run[i + 1] == Apply(run[i], steps[i], ttl, slack)
  }

  lemma StepKeepsInv(s: State, step: Step, ttl: nat, slack: nat)
    requires Inv(s, ttl, slack) && Enabled(s, step, slack)
    ensures Inv(Apply(s, step, ttl, slack), ttl, slack)
  {
  }

  lemma {:induction false} RunKeepsInv(run: seq<State>, steps: seq<Step>, ttl: nat, slack: nat, n: nat)
    requires IsRun(run, steps, ttl, slack) && n < |run|
    ensures Inv(run[n], ttl, slack)
  {
    if n > 0 {
      RunKeepsInv(run, steps, ttl, slack, n - 1);
      StepKeepsInv(run[n - 1], steps[n - 1], ttl, slack);
    }
  }

  /** A cached response comes from a build that started after the reader's clock reading minus the
      lifetime minus the slack, and is never the blank value, although a slow build may store over a
      newer one. */
  lemma CachedIsRecent(run: seq<State>, steps: seq<Step>, ttl: nat, slack: nat, n: nat, t: nat)
    requires IsRun(run, steps, ttl, slack) && n < |run|
    requires t in run[n].requests && run[n].requests[t].Cached?
    ensures run[n].requests[t].value.Built?
    ensures run[n].requests[t].value.started > run[n].requests[t].now - ttl - slack
  {
    RunKeepsInv(run, steps, ttl, slack, n);
  }

  /** Some request was served a response that is as old as the bound lets it be. */
  ghost predicate ServesOldest(s: State, ttl: nat, slack: nat) {
    exists t :: t in s.requests && s.requests[t].Cached? && s.requests[t].value.Built? &&
                s.requests[t].value.started == s.requests[t].now - ttl - slack + 1
  }

  /** The bound is tight: a response can be served one nanosecond before it is broken. */
  lemma StalenessIsTight(ttl: nat, slack: nat)
    requires ttl > 0
    ensures exists run: seq<State>, steps: seq<Step> ::
              IsRun(run, steps, ttl, slack) && ServesOldest(run[|run| - 1], ttl, slack)
  {
    var run, steps := [Init(0)], [];
    run, steps := Extend(run, steps, Arrive(0), ttl, slack);
    run, steps := Extend(run, steps, Check(0), ttl, slack);
    run, steps := Extend(run, steps, Tick(slack), ttl, slack);
    run, steps := Extend(run, steps, Store(0), ttl, slack);
    run, steps := Extend(run, steps, Tick(ttl - 1), ttl, slack);
    run, steps := Extend(run, steps, Arrive(1), ttl, slack);
    run, steps := Extend(run, steps, Check(1), ttl, slack);
    assert run[|run| - 1].requests[1].Cached?;
    assert ServesOldest(run[|run| - 1], ttl, slack);
  }

  lemma Extend(run: seq<State>, steps: seq<Step>, step: Step, ttl: nat, slack: nat)
    returns (run': seq<State>, steps': seq<Step>)
    requires IsRun(run, steps, ttl, slack) && Enabled(run[|run| - 1], step, slack)
    ensures IsRun(run', steps', ttl, slack)
    ensures run'[|run'| - 1] == Apply(run[|run| - 1], step, ttl, slack)
  {
    run', steps' := run + [Apply(run[|run| - 1], step, ttl, slack)], steps + [step];
  }

  // ---------- Message counts ----------

  const HOUR := 3_600_000_000_000
  const MILLI := 1_000_000

  datatype MessageStats = MessageStats(lastHour: nat, today: nat, total: nat)

  /** The whole millisecond of a clock reading. */
  function UnixMilli(t: int): int {
    t / MILLI
  }

  /** How many timestamps are not before the cutoff. */
  function CountSince(rows: seq<int>, cutoff: int): nat {
    if rows == [] then 0
    else CountSince(rows[..|rows| - 1], cutoff) + if rows[|rows| - 1] >= cutoff then 1 else 0
  }

  /** That is the number of rows whose timestamp is not before the cutoff. */
  lemma {:induction false} CountSinceCounts(rows: seq<int>, cutoff: int)
    ensures CountSince(rows, cutoff) == |set i | 0 <= i < |rows| && rows[i] >= cutoff|
  {
    if rows != [] {
      var n := |rows| - 1;
      CountSinceCounts(rows[..n], cutoff);
      var before, all := set i | 0 <= i < n && rows[..n][i] >= cutoff, set i | 0 <= i < |rows| && rows[i] >= cutoff;
      assert all == before + if rows[n] >= cutoff then {n} else {};
    }
  }

  lemma {:induction false} CountGrows(rows: seq<int>, more: seq<int>, narrow: int, wide: int)
    requires rows <= more && wide <= narrow
    ensures CountSince(rows, narrow) <= CountSince(more, wide) <= |more|
    decreases |more|
  {
    if more != [] {
      var n := |more| - 1;
      if rows == more {
        CountGrows(rows[..n], more[..n], narrow, wide);
      } else {
        CountGrows(rows, more[..n], narrow, wide);
      }
    }
  }

  /** Four moments of a table that only grows. */
  predicate InOrder(start: seq<int>, first: seq<int>, second: seq<int>, last: seq<int>) {
    start <= first <= second <= last
  }

  /** The timestamps of stored messages. Rows are only added. */
  class MessageTable {
    var rows: seq<int>

    constructor ()
      ensures rows == []
    {
      rows := [];
    }

    /** Other connections insert any number of rows. */
    method Interference()
      modifies this
      ensures old(rows) <= rows
    {
      var more: seq<int> := *;
      rows := rows + more;
    }

    /** The three counting queries of one overview, with inserts landing before and between them. The
        two cutoffs come from two clock readings. Each count is exact for the table of its own moment. */
    method BuildMessageStats(nowForHour: int, nowForDay: int) returns (stats: MessageStats)
      modifies this
      ensures exists first, second ::
                InOrder(old(rows), first, second, rows) &&
                stats.lastHour ==
                  (|set i | 0 <= i < |first| && first[i] >= (nowForHour - 3_600_000_000_000) / 1_000_000|) &&
                stats.today ==
                  (|set i | 0 <= i < |second| && second[i] >= (nowForDay - 86_400_000_000_000) / 1_000_000|)
      ensures stats.today <= stats.total == |rows|
      ensures nowForDay - nowForHour <= 82_800_000_000_000 ==> stats.lastHour <= stats.today
    {
      var cutoffHour := UnixMilli(nowForHour - HOUR);
      var cutoffDay := UnixMilli(nowForDay - 24 * HOUR);
      Interference();
      var hour := CountSince(rows, cutoffHour);
      ghost var first := rows;
      Interference();
      var day := CountSince(rows, cutoffDay);
      ghost var second := rows;
      Interference();
      var total := |rows|;
      assert InOrder(old(rows), first, second, rows);
      CountSinceCounts(first, cutoffHour);
      CountSinceCounts(second, cutoffDay);
      if nowForDay - nowForHour <= 23 * HOUR {
        CountGrows(first, second, cutoffHour, cutoffDay);
      }
      CountGrows(second, rows, cutoffDay, cutoffDay);
      return MessageStats(hour, day, total);
    }
  }

  predicate Extends(before: seq<int>, after: seq<int>) {
    before <= after
  }

  /** Whatever rows there are and arrive, the count for the narrow window is within the later one for
      the wide window. */
  ghost predicate AlwaysWithin(narrow: int, wide: int) {
    forall before, after :: Extends(before, after) ==> CountSince(before, narrow) <= CountSince(after, wide)
  }

  /** The hourly count stays within the daily one on every table if and only if the daily cutoff is not
      after the hourly one in whole milliseconds. */
  lemma HourWithinDayIff(nowForHour: int, nowForDay: int)
    ensures AlwaysWithin(UnixMilli(nowForHour - HOUR), UnixMilli(nowForDay - 24 * HOUR)) <==>
            (nowForDay - 86_400_000_000_000) / 1_000_000 <= (nowForHour - 3_600_000_000_000) / 1_000_000
  {
    CutoffsWithinIff(UnixMilli(nowForHour - HOUR), UnixMilli(nowForDay - 24 * HOUR));
  }

  lemma CutoffsWithinIff(narrow: int, wide: int)
    ensures AlwaysWithin(narrow, wide) <==> wide <= narrow
  {
    if wide <= narrow {
      forall before, after | Extends(before, after)
        ensures CountSince(before, narrow) <= CountSince(after, wide)
      {
        CountGrows(before, after, narrow, wide);
      }
    } else {
      var rows := [narrow];
      assert CountSince(rows, narrow) == 1;
      assert CountSince(rows, wide) == 0;
      assert Extends(rows, rows);
    }
  }
}
