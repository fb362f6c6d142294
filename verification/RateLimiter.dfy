/** The per-address sliding-window rate limiter that the services carry as a copy each.

    A limiter stores, for every address, the clock readings of the admitted requests. A request
    drops stale readings at the head of the list only, then compares the length with the limit.
    Two families of copies exist: one reads the clock while it holds the lock, the others read
    it before they take the lock. A run is therefore a schedule of ticks, clock readings and lock
    acquisitions, from which the calls in lock order follow. */
module RateLimiter {

  /** What the limiter has stored. */
  datatype Limiter = Limiter(limit: int, window: int, hits: map<string, seq<int>>) {

    /** The stored readings of an address; a missing key reads as the empty list. */
    function Hits(ip: string): seq<int> {
      if ip in hits then hits[ip] else []
    }
  }

  /** One call of `Allow`, with the clock reading it works with. */
  datatype Call = Call(ip: string, now: int)

  /** The start of the closed window that ends at a clock reading. */
  function Cutoff(now: int, window: int): int {
    now - window
  }

  /** Readings from the first one that is not before the cutoff. */
  function PruneHead(list: seq<int>, cutoff: int): seq<int> {
    if list != [] && list[0] < cutoff then PruneHead(list[1..], cutoff) else list
  }

  predicate Admits(l: Limiter, c: Call) {
    |PruneHead(l.Hits(c.ip), Cutoff(c.now, l.window))| < l.limit
  }

  function After(l: Limiter, c: Call): Limiter {
    var list := PruneHead(l.Hits(c.ip), Cutoff(c.now, l.window));
    l.(hits := l.hits[c.ip := if Admits(l, c) then list + [c.now] else list])
  }

  /** The limiter as the services hold it. The mutex makes each call one step. */
  class IpRateLimiter {
    const limit: int
    const window: int
    var hits: map<string, seq<int>>

    ghost function Model(): Limiter
      reads this
    {
      Limiter(limit, window, hits)
    }

    constructor (limit: int, window: int)
      ensures Model() == Limiter(limit, window, map[])
    {
      this.limit := limit;
      this.window := window;
      hits := map[];
    }

    method Allow(ip: string, now: int) returns (ok: bool)
      modifies this
      ensures ok == Admits(old(Model()), Call(ip, now))
      ensures Model() == After(old(Model()), Call(ip, now))
    {
      var cutoff := now - window;
      var list := if ip in hits then hits[ip] else [];
      var i := 0;
      while i < |list| && list[i] < cutoff
        invariant 0 <= i <= |list|
        invariant PruneHead(list[i..], cutoff) == PruneHead(list, cutoff)
      {
        i := i + 1;
      }
      if i > 0 {
        list := list[i..];
      }
      if |list| >= limit {
        hits := hits[ip := list];
        return false;
      }
      list := list + [now];
      hits := hits[ip := list];
      return true;
    }
  }

  // ---------- Runs ----------

  function Run(l: Limiter, calls: seq<Call>): Limiter {
    if calls == [] then l else After(Run(l, calls[..|calls| - 1]), calls[|calls| - 1])
  }

  /** The clock readings of the requests of one address that the run admitted, in lock order. */
  function Admitted(l: Limiter, calls: seq<Call>, ip: string): seq<int> {
    if calls == [] then []
    else
      var before := calls[..|calls| - 1];
      var c := calls[|calls| - 1];
      Admitted(l, before, ip) + (if c.ip == ip && Admits(Run(l, before), c) then [c.now] else [])
  }

  function Fresh(limit: int, window: int): Limiter {
    Limiter(limit, window, map[])
  }

  /** How many readings lie in the closed interval from `lo` to `hi`. */
  function CountIn(list: seq<int>, lo: int, hi: int): nat {
    if list == [] then 0
    else CountIn(list[..|list| - 1], lo, hi) + (if lo <= list[|list| - 1] <= hi then 1 else 0)
  }

  /** That is the number of positions whose reading is in the interval. */
  lemma {:induction false} CountInCounts(list: seq<int>, lo: int, hi: int)
    ensures CountIn(list, lo, hi) == |set i | 0 <= i < |list| && lo <= list[i] <= hi|
  {
    if list != [] {
      var n := |list| - 1;
      CountInCounts(list[..n], lo, hi);
      var before := set i | 0 <= i < n && lo <= list[..n][i] <= hi;
      var all := set i | 0 <= i < |list| && lo <= list[i] <= hi;
      assert all == before + if lo <= list[n] <= hi then {n} else {};
    }
  }

  predicate Sorted(list: seq<int>) {
    forall i, j :: 0 <= i < j < |list| ==> list[i] <= list[j]
  }

  /** In lock order no reading of the address is more than `skew` behind an earlier one. Other addresses
      have their own lists and do not matter. */
  predicate Skewed(calls: seq<Call>, ip: string, skew: nat) {
    forall i, j :: 0 <= i < j < |calls| && calls[i].ip == ip && calls[j].ip == ip ==>
                     calls[i].now <= calls[j].now + skew
  }

  /** For the address, lock order follows clock order. */
  predicate ClockOrdered(calls: seq<Call>, ip: string) {
    Skewed(calls, ip, 0)
  }

  /** A call of the address that reads `now` may follow. */
  predicate MayFollow(calls: seq<Call>, ip: string, skew: nat, now: int) {
    forall k :: 0 <= k < |calls| && calls[k].ip == ip ==> calls[k].now <= now + skew
  }

  lemma {:induction false} CountAppend(a: seq<int>, b: seq<int>, lo: int, hi: int)
    ensures CountIn(a + b, lo, hi) == CountIn(a, lo, hi) + CountIn(b, lo, hi)
  {
    if b == [] {
      assert a + b == a;
    } else {
      var n := |b| - 1;
      assert (a + b)[..|a + b| - 1] == a + b[..n];
      CountAppend(a, b[..n], lo, hi);
    }
  }

  lemma {:induction false} CountOutside(a: seq<int>, lo: int, hi: int)
    requires forall k :: 0 <= k < |a| ==> !(lo <= a[k] <= hi)
    ensures CountIn(a, lo, hi) == 0
  {
    if a != [] {
      CountOutside(a[..|a| - 1], lo, hi);
    }
  }

  lemma {:induction false} CountAtMostLength(a: seq<int>, lo: int, hi: int)
    ensures CountIn(a, lo, hi) <= |a|
  {
    if a != [] {
      CountAtMostLength(a[..|a| - 1], lo, hi);
    }
  }

  lemma {:induction false} CountAll(a: seq<int>, lo: int, hi: int)
    requires forall k :: 0 <= k < |a| ==> lo <= a[k] <= hi
    ensures CountIn(a, lo, hi) == |a|
  {
    if a != [] {
      CountAll(a[..|a| - 1], lo, hi);
    }
  }

  /** Pruning splits the list: everything dropped is stale and what stays does not start stale. */
  lemma {:induction false} PruneSplits(list: seq<int>, cutoff: int) returns (dropped: seq<int>)
    ensures list == dropped + PruneHead(list, cutoff)
    ensures forall k :: 0 <= k < |dropped| ==> dropped[k] < cutoff
    ensures PruneHead(list, cutoff) != [] ==> PruneHead(list, cutoff)[0] >= cutoff
  {
    if list != [] && list[0] < cutoff {
      var rest := PruneSplits(list[1..], cutoff);
      dropped := [list[0]] + rest;
      assert list == [list[0]] + list[1..];
    } else {
      dropped := [];
    }
  }

  // ---------- Window bound and exactness ----------

  /** Two admissions with at least `limit` - 1 others between them, in lock order, are further apart than
      `length`, the later one being the larger. */
  ghost predicate Spaced(list: seq<int>, limit: int, length: int) {
    forall i, j :: 0 <= i < j < |list| && j - i >= limit ==> list[j] > list[i] + length
  }

  /** The stored list is the tail of the admissions that are not yet known to be before the cutoff. */
  ghost predicate IsTail(hits: seq<int>, admitted: seq<int>, cutoff: int) {
    && |hits| <= |admitted|
    && admitted[|admitted| - |hits|..] == hits
    && (forall i :: 0 <= i < |admitted| - |hits| ==> admitted[i] < cutoff)
  }

  lemma {:induction false} RunKeepsShape(l: Limiter, calls: seq<Call>)
    ensures Run(l, calls).limit == l.limit && Run(l, calls).window == l.window
  {
    if calls != [] {
      RunKeepsShape(l, calls[..|calls| - 1]);
    }
  }

  lemma PruneKeepsTail(hits: seq<int>, admitted: seq<int>, cutoff: int, pruned: int)
    requires IsTail(hits, admitted, cutoff) && pruned <= cutoff
    ensures IsTail(PruneHead(hits, pruned), admitted, cutoff)
  {
    var kept := PruneHead(hits, pruned);
    var dropped := PruneSplits(hits, pruned);
    var start := |admitted| - |hits|;
    assert admitted == admitted[..start] + (dropped + kept);
    assert admitted == (admitted[..start] + dropped) + kept;
    forall i | 0 <= i < |admitted| - |kept|
      ensures admitted[i] < cutoff
    {
      if i >= start {
        assert admitted[i] == dropped[i - start];
      }
    }
  }

  lemma AdmitKeepsTail(hits: seq<int>, admitted: seq<int>, cutoff: int, now: int)
    requires IsTail(hits, admitted, cutoff)
    ensures IsTail(hits + [now], admitted + [now], cutoff)
  {
    var k := |admitted| - |hits|;
    assert (admitted + [now])[k..] == admitted[k..] + [now];
  }

  lemma AdmitKeepsSpaced(hits: seq<int>, admitted: seq<int>, limit: int, length: int, now: int)
    requires IsTail(hits, admitted, Cutoff(now, length)) && |hits| < limit
    requires Spaced(admitted, limit, length)
    ensures Spaced(admitted + [now], limit, length)
  {
    var longer := admitted + [now];
    forall i, j | 0 <= i < j < |longer| && j - i >= limit
      ensures longer[j] > longer[i] + length
    {
      if j == |admitted| {
        assert i < |admitted| - |hits|;
      }
    }
  }

  /** One call, seen from one address: the stored list stays a tail of the admissions, as far as a later
      reading `next` can tell, and the admissions stay spaced. */
  lemma StepTracks(l: Limiter, c: Call, ip: string, admitted: seq<int>, length: nat, next: int)
    requires length <= l.window && Spaced(admitted, l.limit, length)
    requires IsTail(l.Hits(ip), admitted, Cutoff(next, length))
    requires c.ip == ip ==>
               IsTail(l.Hits(ip), admitted, Cutoff(c.now, length)) && Cutoff(c.now, l.window) <= Cutoff(next, length)
    ensures
      var more := admitted + if c.ip == ip && Admits(l, c) then [c.now] else [];
      IsTail(After(l, c).Hits(ip), more, Cutoff(next, length)) && Spaced(more, l.limit, length)
  {
    if c.ip == ip {
      var kept := PruneHead(l.Hits(ip), Cutoff(c.now, l.window));
      PruneKeepsTail(l.Hits(ip), admitted, Cutoff(next, length), Cutoff(c.now, l.window));
      PruneKeepsTail(l.Hits(ip), admitted, Cutoff(c.now, length), Cutoff(c.now, l.window));
      if Admits(l, c) {
        AdmitKeepsTail(kept, admitted, Cutoff(next, length), c.now);
        AdmitKeepsSpaced(kept, admitted, l.limit, length, c.now);
      }
    }
    assert admitted + [] == admitted;
  }

  /** After any run, for each address on its own: what is no longer stored is out of reach of every
      reading that may follow, and the admissions are spaced by the window less the skew. */
  lemma {:induction false} RunTracks(
    limit: int, window: nat, calls: seq<Call>, ip: string, skew: nat, next: int)
    requires skew <= window
    requires Skewed(calls, ip, skew) && MayFollow(calls, ip, skew, next)
    ensures
      var l, admitted := Run(Fresh(limit, window), calls), Admitted(Fresh(limit, window), calls, ip);
      IsTail(l.Hits(ip), admitted, Cutoff(next, window - skew)) && Spaced(admitted, limit, window - skew)
  {
    if calls != [] {
      var l := Fresh(limit, window);
      var before, c := calls[..|calls| - 1], calls[|calls| - 1];
      RunKeepsShape(l, before);
      RunTracks(limit, window, before, ip, skew, next);
      if c.ip == ip {
        RunTracks(limit, window, before, ip, skew, c.now);
      }
      StepTracks(Run(l, before), c, ip, Admitted(l, before, ip), window - skew, next);
    }
  }

  /** Where no interval of this length is entered again `limit` admissions after it was entered, none
      holds more than `limit`. */
  lemma SpacedBoundsCount(list: seq<int>, limit: nat, length: nat, from: int, to: int)
    requires limit > 0 && to == from + length
    requires Spaced(list, limit, length)
    ensures CountIn(list, from, to) <= limit
  {
    if k :| 0 <= k < |list| && from <= list[k] <= to {
      var first := FirstIn(list, from, to, k);
      var n := if first + limit < |list| then first + limit else |list|;
      forall k | n <= k < |list| ensures list[k] > to {
        assert list[k] > list[first] + length;
      }
      CountBetween(list, first, n, from, to);
    } else {
      CountOutside(list, from, to);
    }
  }

  lemma CountBetween(list: seq<int>, first: nat, n: nat, from: int, to: int)
    requires first <= n <= |list|
    requires forall k :: 0 <= k < first || n <= k < |list| ==> !(from <= list[k] <= to)
    ensures CountIn(list, from, to) <= n - first
  {
    assert list == list[..first] + list[first..n] + list[n..];
    CountAppend(list[..first] + list[first..n], list[n..], from, to);
    CountAppend(list[..first], list[first..n], from, to);
    CountOutside(list[..first], from, to);
    CountOutside(list[n..], from, to);
    CountAtMostLength(list[first..n], from, to);
  }

  lemma {:induction false} FirstIn(list: seq<int>, from: int, to: int, k: nat) returns (first: nat)
    requires k < |list| && from <= list[k] <= to
    ensures first < |list| && from <= list[first] <= to
    ensures forall i :: 0 <= i < first ==> !(from <= list[i] <= to)
  {
    if j :| 0 <= j < k && from <= list[j] <= to {
      first := FirstIn(list, from, to, j);
    } else {
      first := k;
    }
  }

  lemma {:induction false} NoneAdmittedWithoutLimit(limit: int, window: int, calls: seq<Call>, ip: string)
    requires limit <= 0
    ensures Admitted(Fresh(limit, window), calls, ip) == []
  {
    if calls != [] {
      RunKeepsShape(Fresh(limit, window), calls[..|calls| - 1]);
      NoneAdmittedWithoutLimit(limit, window, calls[..|calls| - 1], ip);
    }
  }

  lemma {:induction false} HighReading(calls: seq<Call>) returns (high: int)
    ensures forall k :: 0 <= k < |calls| ==> calls[k].now <= high
  {
    if calls == [] {
      high := 0;
    } else {
      high := HighReading(calls[..|calls| - 1]);
      high := if high < calls[|calls| - 1].now then calls[|calls| - 1].now else high;
    }
  }

  /** The bound under skew: no closed interval of the window's length less the skew holds more than `limit`
      admissions of the address, whatever the other addresses do. */
  lemma SkewedWindowBound(limit: nat, window: nat, calls: seq<Call>, ip: string, skew: nat, to: int)
    requires skew <= window && Skewed(calls, ip, skew)
    ensures CountIn(Admitted(Fresh(limit, window), calls, ip), Cutoff(to, window - skew), to) <= limit
  {
    if limit == 0 {
      NoneAdmittedWithoutLimit(limit, window, calls, ip);
    } else {
      var high := HighReading(calls);
      RunTracks(limit, window, calls, ip, skew, high);
      SpacedBoundsCount(
        Admitted(Fresh(limit, window), calls, ip), limit, window - skew, Cutoff(to, window - skew), to);
    }
  }

  /** The window bound: when the address's own calls get the lock in clock order, no closed interval of the
      window's length holds more than `limit` of its admissions. */
  lemma WindowBound(limit: nat, window: nat, calls: seq<Call>, ip: string, to: int)
    requires ClockOrdered(calls, ip)
    ensures CountIn(Admitted(Fresh(limit, window), calls, ip), Cutoff(to, window), to) <= limit
  {
    SkewedWindowBound(limit, window, calls, ip, 0, to);
  }

  /** Admissions are readings of calls, in lock order. */
  lemma {:induction false} AdmittedInOrder(l: Limiter, calls: seq<Call>, ip: string, now: int)
    requires ClockOrdered(calls, ip) && MayFollow(calls, ip, 0, now)
    ensures Sorted(Admitted(l, calls, ip))
    ensures forall i :: 0 <= i < |Admitted(l, calls, ip)| ==> Admitted(l, calls, ip)[i] <= now
  {
    if calls != [] {
      var before, c := calls[..|calls| - 1], calls[|calls| - 1];
      AdmittedInOrder(l, before, ip, now);
      if c.ip == ip {
        AdmittedInOrder(l, before, ip, c.now);
      }
    }
  }

  /** The kept tail of a sorted list is exactly what lies in the window. */
  lemma TailCounts(kept: seq<int>, admitted: seq<int>, cutoff: int, now: int)
    requires IsTail(kept, admitted, cutoff)
    requires Sorted(admitted)
    requires kept != [] ==> kept[0] >= cutoff
    requires forall i :: 0 <= i < |admitted| ==> admitted[i] <= now
    ensures CountIn(admitted, cutoff, now) == |kept|
  {
    var k := |admitted| - |kept|;
    assert admitted == admitted[..k] + kept;
    CountAppend(admitted[..k], kept, cutoff, now);
    CountOutside(admitted[..k], cutoff, now);
    forall i | 0 <= i < |kept|
      ensures cutoff <= kept[i] <= now
    {
      assert kept[i] == admitted[k + i] && kept[0] == admitted[k];
    }
    CountAll(kept, cutoff, now);
  }

  /** Exactness: after any run, a further call that follows its address's calls in clock order is refused
      exactly when `limit` admitted requests already lie in the closed window ending at its reading. */
  lemma RefusedIffWindowFull(limit: nat, window: nat, calls: seq<Call>, c: Call)
    requires ClockOrdered(calls, c.ip) && MayFollow(calls, c.ip, 0, c.now)
    ensures !Admits(Run(Fresh(limit, window), calls), c) <==>
            CountIn(Admitted(Fresh(limit, window), calls, c.ip), Cutoff(c.now, window), c.now) == limit
  {
    var l, admitted := Run(Fresh(limit, window), calls), Admitted(Fresh(limit, window), calls, c.ip);
    RunKeepsShape(Fresh(limit, window), calls);
    WindowBound(limit, window, calls, c.ip, c.now);
    RunTracks(limit, window, calls, c.ip, 0, c.now);
    AdmittedInOrder(Fresh(limit, window), calls, c.ip, c.now);
    KeptCounts(l.Hits(c.ip), admitted, Cutoff(c.now, window), c.now);
  }

  lemma KeptCounts(hits: seq<int>, admitted: seq<int>, cutoff: int, now: int)
    requires IsTail(hits, admitted, cutoff) && Sorted(admitted)
    requires forall i :: 0 <= i < |admitted| ==> admitted[i] <= now
    ensures CountIn(admitted, cutoff, now) == |PruneHead(hits, cutoff)|
  {
    PruneKeepsTail(hits, admitted, cutoff, cutoff);
    var dropped := PruneSplits(hits, cutoff);
    TailCounts(PruneHead(hits, cutoff), admitted, cutoff, now);
  }

  /** All that is stored is the last admission. */
  ghost predicate LastOnly(hits: seq<int>, admitted: seq<int>) {
    hits == if admitted == [] then [] else [admitted[|admitted| - 1]]
  }

  lemma LastOnlyPrunes(hits: seq<int>, admitted: seq<int>, window: nat, now: int)
    requires LastOnly(hits, admitted) && Spaced(admitted, 1, window)
    ensures
      var kept := PruneHead(hits, Cutoff(now, window));
      if kept == [] then Spaced(admitted + [now], 1, window) else kept == hits && |kept| == 1
  {
    if hits != [] {
      assert hits[1..] == [];
      var last := |admitted| - 1;
      if hits[0] < Cutoff(now, window) {
        forall i | 0 <= i <= last ensures admitted[i] + window < now {
        }
      }
    }
  }

  lemma OneStep(l: Limiter, c: Call, ip: string, admitted: seq<int>)
    requires l.limit == 1 && l.window >= 0
    requires LastOnly(l.Hits(ip), admitted) && Spaced(admitted, 1, l.window)
    ensures
      var more := admitted + if c.ip == ip && Admits(l, c) then [c.now] else [];
      LastOnly(After(l, c).Hits(ip), more) && Spaced(more, 1, l.window)
  {
    if c.ip == ip {
      LastOnlyPrunes(l.Hits(ip), admitted, l.window, c.now);
    }
    assert admitted + [] == admitted;
  }

  /** With limit one the next admission is beyond the window of the last one: no order is needed. */
  lemma {:induction false} OneAtATime(window: nat, calls: seq<Call>, ip: string)
    ensures LastOnly(Run(Fresh(1, window), calls).Hits(ip), Admitted(Fresh(1, window), calls, ip))
    ensures Spaced(Admitted(Fresh(1, window), calls, ip), 1, window)
  {
    if calls != [] {
      var before, c := calls[..|calls| - 1], calls[|calls| - 1];
      OneAtATime(window, before, ip);
      RunKeepsShape(Fresh(1, window), before);
      OneStep(Run(Fresh(1, window), before), c, ip, Admitted(Fresh(1, window), before, ip));
    }
  }

  lemma BelowTwoBounded(limit: nat, window: nat, calls: seq<Call>, ip: string, to: int)
    requires limit <= 1
    ensures CountIn(Admitted(Fresh(limit, window), calls, ip), Cutoff(to, window), to) <= limit
  {
    if limit == 0 {
      NoneAdmittedWithoutLimit(limit, window, calls, ip);
    } else {
      OneBounded(window, calls, ip, to);
    }
  }

  lemma OneBounded(window: nat, calls: seq<Call>, ip: string, to: int)
    ensures CountIn(Admitted(Fresh(1, window), calls, ip), Cutoff(to, window), to) <= 1
  {
    var admitted := Admitted(Fresh(1, window), calls, ip);
    assert Spaced(admitted, 1, window) by {
      OneAtATime(window, calls, ip);
    }
    SpacedBoundsCount(admitted, 1, window, Cutoff(to, window), to);
  }

  // ---------- Schedules ----------

  /** A schedule over any number of request threads: time passes, a thread reads the clock, a thread
      gets the lock and runs the body of `Allow`. */
  datatype Event = Tick(delta: nat) | ReadClock(thread: nat) | Lock(thread: nat, ip: string)

  function ClockAfter(events: seq<Event>): nat {
    if events == [] then 0
    else
      var e := events[|events| - 1];
      ClockAfter(events[..|events| - 1]) + if e.Tick? then e.delta else 0
  }

  /** The clock value that a thread read last. */
  function Reading(events: seq<Event>, thread: nat): nat {
    if events == [] then 0
    else
      var before := events[..|events| - 1];
      if events[|events| - 1] == ReadClock(thread) then ClockAfter(before) else Reading(before, thread)
  }

  /** The calls in lock order when the clock is read under the lock. */
  function CallsReadingInside(events: seq<Event>): seq<Call> {
    if events == [] then []
    else
      var before := events[..|events| - 1];
      var e := events[|events| - 1];
      CallsReadingInside(before) + if e.Lock? then [Call(e.ip, ClockAfter(before))] else []
  }

  /** The calls in lock order when each thread read the clock before it waited for the lock. */
  function CallsReadingOutside(events: seq<Event>): seq<Call> {
    if events == [] then []
    else
      var before := events[..|events| - 1];
      var e := events[|events| - 1];
      CallsReadingOutside(before) + if e.Lock? then [Call(e.ip, Reading(before, e.thread))] else []
  }

  lemma {:induction false} InsideIsClockOrdered(events: seq<Event>, ip: string)
    ensures ClockOrdered(CallsReadingInside(events), ip)
    ensures MayFollow(CallsReadingInside(events), ip, 0, ClockAfter(events))
  {
    if events != [] {
      InsideIsClockOrdered(events[..|events| - 1], ip);
    }
  }

  /** The copy that reads the clock under the lock keeps the bound under every interleaving. */
  lemma InsideCopyBounded(limit: nat, window: nat, events: seq<Event>, ip: string, to: int)
    ensures CountIn(Admitted(Fresh(limit, window), CallsReadingInside(events), ip), Cutoff(to, window), to) <= limit
  {
    InsideIsClockOrdered(events, ip);
    WindowBound(limit, window, CallsReadingInside(events), ip, to);
  }

  /** The same copy refuses a further request exactly when its window is full. */
  lemma InsideCopyExact(limit: nat, window: nat, events: seq<Event>, thread: nat, ip: string)
    ensures
      var calls := CallsReadingInside(events);
      var now := ClockAfter(events);
      CallsReadingInside(events + [Lock(thread, ip)]) == calls + [Call(ip, now)] &&
      (!Admits(Run(Fresh(limit, window), calls), Call(ip, now)) <==>
       CountIn(Admitted(Fresh(limit, window), calls, ip), Cutoff(now, window), now) == limit)
  {
    assert (events + [Lock(thread, ip)])[..|events|] == events;
    InsideIsClockOrdered(events, ip);
    RefusedIffWindowFull(limit, window, CallsReadingInside(events), Call(ip, ClockAfter(events)));
  }

  // ---------- The copies that read the clock first ----------

  /** Every thread has the lock at most `delay` after it read the clock. */
  predicate Prompt(events: seq<Event>, delay: nat) {
    events == [] ||
    var before := events[..|events| - 1];
    var e := events[|events| - 1];
    Prompt(before, delay) && (e.Lock? ==> ClockAfter(before) <= Reading(before, e.thread) + delay)
  }

  lemma {:induction false} ReadingIsPast(events: seq<Event>, thread: nat)
    ensures Reading(events, thread) <= ClockAfter(events)
  {
    if events != [] {
      ReadingIsPast(events[..|events| - 1], thread);
    }
  }

  /** The wait for the lock bounds the skew. */
  lemma {:induction false} WaitBoundsSkew(events: seq<Event>, ip: string, delay: nat)
    requires Prompt(events, delay)
    ensures Skewed(CallsReadingOutside(events), ip, delay)
    ensures MayFollow(CallsReadingOutside(events), ip, 0, ClockAfter(events))
  {
    if events != [] {
      var before, e := events[..|events| - 1], events[|events| - 1];
      WaitBoundsSkew(before, ip, delay);
      if e.Lock? {
        ReadingIsPast(before, e.thread);
      }
    }
  }

  /** The copies that read the clock first: when no thread waits for the lock longer than `delay`, every
      closed interval of the window's length less the delay holds at most `limit` admissions. */
  lemma PromptCopyBounded(limit: nat, window: nat, events: seq<Event>, ip: string, delay: nat, to: int)
    requires delay <= window && Prompt(events, delay)
    ensures
      CountIn(Admitted(Fresh(limit, window), CallsReadingOutside(events), ip), Cutoff(to, window - delay), to) <= limit
  {
    WaitBoundsSkew(events, ip, delay);
    SkewedWindowBound(limit, window, CallsReadingOutside(events), ip, delay, to);
  }

  /** In particular they keep the full bound when an address's own calls get the lock in clock order. */
  lemma OutsideCopyBoundedInOrder(limit: nat, window: nat, events: seq<Event>, ip: string, to: int)
    requires ClockOrdered(CallsReadingOutside(events), ip)
    ensures CountIn(Admitted(Fresh(limit, window), CallsReadingOutside(events), ip), Cutoff(to, window), to) <= limit
  {
    WindowBound(limit, window, CallsReadingOutside(events), ip, to);
  }

  ghost predicate HoldsAtMost(admitted: seq<int>, limit: nat, length: nat) {
    forall to :: CountIn(admitted, Cutoff(to, length), to) <= limit
  }

  /** In every schedule where the readings of an address are at most `skew` out of order, each closed
      interval of this length holds at most `limit` of its admissions. */
  ghost predicate KeepsBound(limit: nat, window: nat, ip: string, skew: nat, length: nat) {
    forall events :: Skewed(CallsReadingOutside(events), ip, skew) ==>
                       HoldsAtMost(Admitted(Fresh(limit, window), CallsReadingOutside(events), ip), limit, length)
  }

  /** Threads 0 to n - 1, each of which reads the clock and gets the lock at time 0. */
  function Burst(n: nat, ip: string): seq<Event> {
    if n == 0 then [] else Burst(n - 1, ip) + [ReadClock(n - 1)] + [Lock(n - 1, ip)]
  }

  /** A burst of n; then a thread reads the clock, and `behind` later another one reads it, just past the
      window of the burst, and gets the lock first. */
  function OvertakenSchedule(n: nat, window: nat, behind: nat, ip: string): seq<Event>
    requires behind <= window + 1
  {
    Burst(n, ip) + [Tick(window + 1 - behind)] + [ReadClock(n)] + [Tick(behind)] + [ReadClock(n + 1)] +
    [Lock(n + 1, ip)] + [Lock(n, ip)]
  }

  function Zeros(n: nat): seq<int> {
    seq(n, i => 0)
  }

  function CallsAt(ip: string, readings: seq<int>): seq<Call> {
    seq(|readings|, i requires 0 <= i < |readings| => Call(ip, readings[i]))
  }

  lemma Snoc(events: seq<Event>, e: Event, delay: nat)
    ensures (events + [e])[..|events|] == events
    ensures ClockAfter(events + [e]) == ClockAfter(events) + if e.Tick? then e.delta else 0
    ensures forall t :: Reading(events + [e], t) ==
                        if e == ReadClock(t) then ClockAfter(events) else Reading(events, t)
    ensures CallsReadingOutside(events + [e]) ==
            CallsReadingOutside(events) + if e.Lock? then [Call(e.ip, Reading(events, e.thread))] else []
    ensures Prompt(events + [e], delay) <==>
            Prompt(events, delay) && (e.Lock? ==> ClockAfter(events) <= Reading(events, e.thread) + delay)
  {
    assert (events + [e])[..|events|] == events;
  }

  lemma {:induction false} BurstCalls(n: nat, ip: string)
    ensures ClockAfter(Burst(n, ip)) == 0
    ensures CallsReadingOutside(Burst(n, ip)) == CallsAt(ip, Zeros(n))
  {
    if n > 0 {
      BurstCalls(n - 1, ip);
      ReadThenLock(Burst(n - 1, ip), n - 1, 0, ip);
      ZerosSnoc(n, ip);
    }
  }

  lemma {:induction false} BurstIsPrompt(n: nat, delay: nat, ip: string)
    ensures Prompt(Burst(n, ip), delay)
  {
    if n > 0 {
      BurstIsPrompt(n - 1, delay, ip);
      BurstCalls(n - 1, ip);
      ReadThenLock(Burst(n - 1, ip), n - 1, delay, ip);
    }
  }

  lemma ZerosSnoc(n: nat, ip: string)
    requires n > 0
    ensures Zeros(n) == Zeros(n - 1) + [0]
    ensures CallsAt(ip, Zeros(n)) == CallsAt(ip, Zeros(n - 1)) + [Call(ip, 0)]
  {
    assert Zeros(n) == Zeros(n - 1) + [0];
  }

  lemma ReadThenLock(events: seq<Event>, thread: nat, delay: nat, ip: string)
    requires ClockAfter(events) == 0
    ensures
      var more := events + [ReadClock(thread)] + [Lock(thread, ip)];
      ClockAfter(more) == 0 && CallsReadingOutside(more) == CallsReadingOutside(events) + [Call(ip, 0)] &&
      (Prompt(events, delay) ==> Prompt(more, delay))
  {
    Snoc(events, ReadClock(thread), delay);
    Snoc(events + [ReadClock(thread)], Lock(thread, ip), delay);
  }

  lemma OvertakenCalls(n: nat, window: nat, behind: nat, ip: string)
    requires behind <= window + 1
    ensures CallsReadingOutside(OvertakenSchedule(n, window, behind, ip)) ==
            CallsAt(ip, Zeros(n)) + [Call(ip, window + 1)] + [Call(ip, window + 1 - behind)]
    ensures Prompt(OvertakenSchedule(n, window, behind, ip), behind)
  {
    BurstCalls(n, ip);
    BurstIsPrompt(n, behind, ip);
    var e1 := Burst(n, ip) + [Tick(window + 1 - behind)];
    var e2 := e1 + [ReadClock(n)];
    var e3 := e2 + [Tick(behind)];
    var e4 := e3 + [ReadClock(n + 1)];
    var e5 := e4 + [Lock(n + 1, ip)];
    Snoc(Burst(n, ip), Tick(window + 1 - behind), behind);
    Snoc(e1, ReadClock(n), behind);
    Snoc(e2, Tick(behind), behind);
    Snoc(e3, ReadClock(n + 1), behind);
    Snoc(e4, Lock(n + 1, ip), behind);
    Snoc(e5, Lock(n, ip), behind);
  }

  lemma CallSnoc(l: Limiter, calls: seq<Call>, c: Call)
    ensures Run(l, calls + [c]) == After(Run(l, calls), c)
    ensures Admitted(l, calls + [c], c.ip) ==
            Admitted(l, calls, c.ip) + if Admits(Run(l, calls), c) then [c.now] else []
  {
    assert (calls + [c])[..|calls|] == calls;
  }

  lemma AdmitsTo(l: Limiter, c: Call, kept: seq<int>)
    requires PruneHead(l.Hits(c.ip), Cutoff(c.now, l.window)) == kept && |kept| < l.limit
    ensures Admits(l, c) && After(l, c) == l.(hits := l.hits[c.ip := kept + [c.now]])
  {
  }

  /** A run of one address, extended by a call that is admitted, with the stored list spelled out. */
  lemma AdmitsNext(l: Limiter, calls: seq<Call>, c: Call, kept: seq<int>)
    requires PruneHead(Run(l, calls).Hits(c.ip), Cutoff(c.now, l.window)) == kept && |kept| < l.limit
    ensures Run(l, calls + [c]).Hits(c.ip) == kept + [c.now]
    ensures Admitted(l, calls + [c], c.ip) == Admitted(l, calls, c.ip) + [c.now]
  {
    RunKeepsShape(l, calls);
    CallSnoc(l, calls, c);
    AdmitsTo(Run(l, calls), c, kept);
  }

  lemma {:induction false} BurstAdmitted(limit: nat, window: nat, n: nat, ip: string)
    requires n <= limit
    ensures Run(Fresh(limit, window), CallsAt(ip, Zeros(n))).Hits(ip) == Zeros(n)
    ensures Admitted(Fresh(limit, window), CallsAt(ip, Zeros(n)), ip) == Zeros(n)
  {
    if n > 0 {
      BurstAdmitted(limit, window, n - 1, ip);
      ZerosSnoc(n, ip);
      AdmitsNext(Fresh(limit, window), CallsAt(ip, Zeros(n - 1)), Call(ip, 0), Zeros(n - 1));
    }
  }

  lemma {:induction false} ZerosExpire(n: nat, cutoff: int)
    requires cutoff > 0
    ensures PruneHead(Zeros(n), cutoff) == []
  {
    if n > 0 {
      assert Zeros(n)[1..] == Zeros(n - 1);
      ZerosExpire(n - 1, cutoff);
    }
  }

  /** The second reading past the burst has emptied the list when the first one arrives: both are let in. */
  lemma OvertakenAdmitted(limit: nat, window: nat, behind: nat, ip: string)
    requires limit >= 2 && behind <= window + 1
    ensures Admitted(Fresh(limit, window), CallsReadingOutside(OvertakenSchedule(limit, window, behind, ip)), ip) ==
            Zeros(limit) + [window + 1] + [window + 1 - behind]
  {
    var l, burst := Fresh(limit, window), CallsAt(ip, Zeros(limit));
    OvertakenCalls(limit, window, behind, ip);
    BurstAdmitted(limit, window, limit, ip);
    ZerosExpire(limit, Cutoff(window + 1, window));
    AdmitsNext(l, burst, Call(ip, window + 1), []);
    AdmitsNext(l, burst + [Call(ip, window + 1)], Call(ip, window + 1 - behind), [window + 1]);
  }

  /** For every limit from two on, every window and every wait up to one more than the window: a schedule
      where no thread waits longer for the lock, and so none is more than that out of order, admits more
      than `limit` requests in an interval one longer than the window less the wait. With a wait of one
      that is the window itself. */
  lemma OutsideCopyCanExceed(limit: nat, window: nat, behind: nat, ip: string)
    requires limit >= 2 && behind <= window + 1
    ensures
      var calls := CallsReadingOutside(OvertakenSchedule(limit, window, behind, ip));
      Prompt(OvertakenSchedule(limit, window, behind, ip), behind) && Skewed(calls, ip, behind) &&
      CountIn(Admitted(Fresh(limit, window), calls, ip), 0, window + 1 - behind) > limit
  {
    var late := window + 1 - behind;
    OvertakenCalls(limit, window, behind, ip);
    OvertakenAdmitted(limit, window, behind, ip);
    CountAppend(Zeros(limit) + [window + 1], [late], 0, late);
    CountAppend(Zeros(limit), [window + 1], 0, late);
    CountAll(Zeros(limit), 0, late);
    CountAll([late], 0, late);
  }

  lemma {:induction false} CountWider(list: seq<int>, lo: int, hi: int, lo': int, hi': int)
    requires lo' <= lo && hi <= hi'
    ensures CountIn(list, lo, hi) <= CountIn(list, lo', hi')
  {
    if list != [] {
      CountWider(list[..|list| - 1], lo, hi, lo', hi');
    }
  }

  /** Exactly how far the bound survives skew: for a limit of at least two, the schedules with at most
      this skew all keep it for intervals of a given length if and only if length and skew together do
      not exceed the window. */
  lemma SkewBoundIff(limit: nat, window: nat, ip: string, skew: nat, length: nat)
    requires limit >= 2
    ensures KeepsBound(limit, window, ip, skew, length) <==> length + skew <= window
  {
    if length + skew <= window {
      forall events | Skewed(CallsReadingOutside(events), ip, skew)
        ensures HoldsAtMost(Admitted(Fresh(limit, window), CallsReadingOutside(events), ip), limit, length)
      {
        var admitted := Admitted(Fresh(limit, window), CallsReadingOutside(events), ip);
        forall to ensures CountIn(admitted, Cutoff(to, length), to) <= limit {
          SkewedWindowBound(limit, window, CallsReadingOutside(events), ip, skew, to);
          CountWider(admitted, Cutoff(to, length), to, Cutoff(to, window - skew), to);
        }
      }
    } else {
      var behind := if skew <= window then skew else window + 1;
      var calls := CallsReadingOutside(OvertakenSchedule(limit, window, behind, ip));
      var admitted := Admitted(Fresh(limit, window), calls, ip);
      OutsideCopyCanExceed(limit, window, behind, ip);
      CountWider(admitted, 0, window + 1 - behind, Cutoff(length, length), length);
      assert !HoldsAtMost(admitted, limit, length);
      assert Skewed(calls, ip, skew);
    }
  }

  /** The same bound over all schedules in which no thread waits for the lock longer than `delay`. */
  ghost predicate KeepsBoundWhenPrompt(limit: nat, window: nat, ip: string, delay: nat, length: nat) {
    forall events :: Prompt(events, delay) ==>
                       HoldsAtMost(Admitted(Fresh(limit, window), CallsReadingOutside(events), ip), limit, length)
  }

  /** And the longest wait for the lock decides in the same way. */
  lemma WaitBoundIff(limit: nat, window: nat, ip: string, delay: nat, length: nat)
    requires limit >= 2
    ensures KeepsBoundWhenPrompt(limit, window, ip, delay, length) <==> length + delay <= window
  {
    if length + delay <= window {
      SkewBoundIff(limit, window, ip, delay, length);
      forall events | Prompt(events, delay)
        ensures HoldsAtMost(Admitted(Fresh(limit, window), CallsReadingOutside(events), ip), limit, length)
      {
        WaitBoundsSkew(events, ip, delay);
      }
    } else {
      var behind := if delay <= window then delay else window + 1;
      var events := OvertakenSchedule(limit, window, behind, ip);
      var admitted := Admitted(Fresh(limit, window), CallsReadingOutside(events), ip);
      OutsideCopyCanExceed(limit, window, behind, ip);
      LongerWaits(events, behind, delay);
      CountWider(admitted, 0, window + 1 - behind, Cutoff(length, length), length);
      assert !HoldsAtMost(admitted, limit, length);
    }
  }

  lemma {:induction false} LongerWaits(events: seq<Event>, delay: nat, longer: nat)
    requires Prompt(events, delay) && delay <= longer
    ensures Prompt(events, longer)
  {
    if events != [] {
      LongerWaits(events[..|events| - 1], delay, longer);
    }
  }

  /** So the copies that read the clock first keep the bound of the full window, over all schedules with at
      most this skew, if and only if there is no skew or the limit is at most one. */
  lemma FullWindowIff(limit: nat, window: nat, ip: string, skew: nat)
    ensures KeepsBound(limit, window, ip, skew, window) <==> skew == 0 || limit <= 1
  {
    if limit >= 2 {
      SkewBoundIff(limit, window, ip, skew, window);
    } else {
      forall events | Skewed(CallsReadingOutside(events), ip, skew)
        ensures HoldsAtMost(Admitted(Fresh(limit, window), CallsReadingOutside(events), ip), limit, window)
      {
        forall to
          ensures CountIn(Admitted(Fresh(limit, window), CallsReadingOutside(events), ip), Cutoff(to, window), to) <= limit
        {
          BelowTwoBounded(limit, window, CallsReadingOutside(events), ip, to);
        }
      }
    }
  }

  // ---------- When head pruning is enough ----------

  /** The readings that a full scan of the list would keep. */
  function PruneAll(list: seq<int>, cutoff: int): seq<int> {
    if list == [] then []
    else (if list[0] < cutoff then [] else [list[0]]) + PruneAll(list[1..], cutoff)
  }

  lemma {:induction false} PruneAllKeepsFresh(list: seq<int>, cutoff: int)
    ensures |PruneAll(list, cutoff)| == |list| <==> forall k :: 0 <= k < |list| ==> list[k] >= cutoff
    ensures (forall k :: 0 <= k < |list| ==> list[k] >= cutoff) ==> PruneAll(list, cutoff) == list
    ensures |PruneAll(list, cutoff)| <= |list|
  {
    if list != [] {
      PruneAllKeepsFresh(list[1..], cutoff);
      if |PruneAll(list, cutoff)| == |list| {
        forall k | 0 <= k < |list| ensures list[k] >= cutoff {
          assert k > 0 ==> list[k] == list[1..][k - 1];
        }
      }
    }
  }

  lemma {:induction false} SortedPrunesAlike(list: seq<int>, cutoff: int)
    requires Sorted(list)
    ensures PruneHead(list, cutoff) == PruneAll(list, cutoff)
  {
    if list == [] {
    } else if list[0] < cutoff {
      SortedPrunesAlike(list[1..], cutoff);
    } else {
      PruneAllKeepsFresh(list, cutoff);
    }
  }

  ghost predicate HeadPruningExact(list: seq<int>) {
    forall cutoff :: PruneHead(list, cutoff) == PruneAll(list, cutoff)
  }

  /** A stale reading behind one that is not stale is kept by the head pruning alone. */
  lemma {:induction false} UnsortedPrunesApart(list: seq<int>, cutoff: int, i: nat, j: nat)
    requires i < j < |list| && list[j] < cutoff <= list[i]
    ensures PruneHead(list, cutoff) != PruneAll(list, cutoff)
  {
    if list[0] < cutoff {
      UnsortedPrunesApart(list[1..], cutoff, i - 1, j - 1);
    } else {
      PruneAllKeepsFresh(list, cutoff);
    }
  }

  /** Dropping stale readings at the head alone equals dropping all of them, at every clock reading,
      exactly for the lists that are sorted. */
  lemma HeadPruningExactIffSorted(list: seq<int>)
    ensures HeadPruningExact(list) <==> Sorted(list)
  {
    if Sorted(list) {
      forall cutoff ensures PruneHead(list, cutoff) == PruneAll(list, cutoff) {
        SortedPrunesAlike(list, cutoff);
      }
    } else {
      var i, j :| 0 <= i < j < |list| && list[i] > list[j];
      UnsortedPrunesApart(list, list[i], i, j);
    }
  }
}
