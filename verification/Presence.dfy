/** Presence: heartbeats stored in whole seconds, a status query that judges age in nanoseconds, a
    background cleanup, and the overview's count of users online. Clock readings are nanoseconds
    since the epoch. */
module Presence {

  const SECOND := 1_000_000_000
  const MINUTE := 60 * SECOND
  const OFFLINE := 0
  const ONLINE := 1

  datatype Row = Row(status: int, lastSeen: int, updatedAt: int)

  type Table = map<string, Row>

  datatype Answer = Rejected | Answer(status: int, lastSeen: int)

  /** The whole second of a clock reading. */
  function Unix(t: int): int {
    t / SECOND
  }

  function Beat(rows: Table, user: string, status: int, now: int): Table {
    if user == "" then rows else rows[user := Row(status, Unix(now), Unix(now))]
  }

  predicate Stale(row: Row, now: int) {
    row.lastSeen < Unix(now - MINUTE)
  }

  function Swept(rows: Table, now: int): Table {
    map u | u in rows :: if Stale(rows[u], now) then rows[u].(status := OFFLINE) else rows[u]
  }

  function StatusOf(rows: Table, user: string, now: int): Answer {
    if user == "" then Rejected
    else
      var found := if user in rows then rows[user] else Row(OFFLINE, 0, 0);
      Answer(if now - found.lastSeen * SECOND > MINUTE then OFFLINE else found.status, found.lastSeen)
  }

  /** The users that the admin overview counts as online. */
  function CountedOnline(rows: Table, now: int): set<string> {
    set u | u in rows && rows[u].status == ONLINE && rows[u].lastSeen >= Unix(now - MINUTE)
  }

  class PresenceService {
    var rows: Table

    constructor ()
      ensures rows == map[]
    {
      rows := map[];
    }

    method Heartbeat(user: string, status: int, now: int) returns (ok: bool)
      modifies this
      ensures ok == (user != "")
      ensures rows == Beat(old(rows), user, status, now)
      ensures user != "" ==> user in rows && rows[user] == Row(status, now / 1_000_000_000, now / 1_000_000_000)
      ensures forall v :: v != user ==> (v in rows <==> v in old(rows)) && (v in rows ==> rows[v] == old(rows)[v])
    {
      if user == "" {
        return false;
      }
      var seconds := now / SECOND;
      rows := rows[user := Row(status, seconds, seconds)];
      return true;
    }

    method Status(user: string, now: int) returns (a: Answer)
      ensures a == StatusOf(rows, user, now)
    {
      if user == "" {
        return Rejected;
      }
      var status, lastSeen := OFFLINE, 0;
      if user in rows {
        status, lastSeen := rows[user].status, rows[user].lastSeen;
      }
      if now - lastSeen * SECOND > MINUTE {
        status := OFFLINE;
      }
      return Answer(status, lastSeen);
    }

    /** One tick of the cleanup loop: a single update statement. */
    method Cleanup(now: int)
      modifies this
      ensures rows == Swept(old(rows), now)
      ensures rows.Keys == old(rows).Keys
      ensures forall u :: u in rows ==>
                rows[u] == old(rows)[u].(status :=
                  if old(rows)[u].lastSeen < (now - 60_000_000_000) / 1_000_000_000 then 0 else old(rows)[u].status)
    {
      var cutoff := (now - MINUTE) / SECOND;
      rows := map u | u in rows :: if rows[u].lastSeen < cutoff then rows[u].(status := OFFLINE) else rows[u];
    }
  }

  // ---------- Runs ----------

  /** What happens to the table, in the order of the statements. `now` is the clock reading that the
      statement works with, taken some time before it runs. */
  datatype Event = Heartbeat(user: string, status: int, now: int) | Cleanup(now: int)

  function Rows(events: seq<Event>): Table {
    if events == [] then map[]
    else
      var before, e := Rows(events[..|events| - 1]), events[|events| - 1];
      match e
      case Heartbeat(user, status, now) => Beat(before, user, status, now)
      case Cleanup(now) => Swept(before, now)
  }

  predicate IsBeatOf(e: Event, user: string) {
    e.Heartbeat? && e.user == user
  }

  /** The last heartbeat of the user in the run is at position i. */
  predicate LastBeatAt(events: seq<Event>, i: nat, user: string) {
    && i < |events| && IsBeatOf(events[i], user)
    && forall k :: i < k < |events| ==> !IsBeatOf(events[k], user)
  }

  /** A cleanup after position i found a heartbeat of that second stale. */
  predicate SweptAfter(events: seq<Event>, i: nat, second: int) {
    exists k :: i < k < |events| && SweepsSecond(events[k], second)
  }

  predicate SweepsSecond(e: Event, second: int) {
    e.Cleanup? && second < (e.now - 60_000_000_000) / 1_000_000_000
  }

  lemma SweptAfterSnoc(before: seq<Event>, e: Event, i: nat, second: int)
    requires i < |before|
    ensures SweptAfter(before + [e], i, second) <==> SweptAfter(before, i, second) || SweepsSecond(e, second)
  {
    var events := before + [e];
    assert events[|before|] == e;
    if SweptAfter(before, i, second) {
      var k :| i < k < |before| && SweepsSecond(before[k], second);
      assert events[k] == before[k];
    }
    if k :| i < k < |events| && SweepsSecond(events[k], second) {
      assert k < |before| ==> before[k] == events[k];
    }
  }

  /** After any run a user's row is that of the user's last heartbeat, in whole seconds, with the status set
      to offline if a later cleanup found it stale. Heartbeats of others do not touch it. */
  lemma {:induction false} RowIsLastHeartbeat(events: seq<Event>, i: nat, user: string)
    requires user != "" && LastBeatAt(events, i, user)
    ensures
      var second := events[i].now / 1_000_000_000;
      && user in Rows(events)
      && Rows(events)[user].lastSeen == second && Rows(events)[user].updatedAt == second
      && Rows(events)[user].status == if SweptAfter(events, i, second) then 0 else events[i].status
  {
    var n := |events| - 1;
    var before, e := events[..n], events[n];
    assert events == before + [e];
    if i < n {
      assert before[i] == events[i];
      forall k | i < k < n ensures !IsBeatOf(before[k], user) {
        assert before[k] == events[k];
      }
      RowIsLastHeartbeat(before, i, user);
      SweptAfterSnoc(before, e, i, events[i].now / 1_000_000_000);
      assert !IsBeatOf(e, user);
    }
  }

  /** A user without a heartbeat has no row. */
  lemma {:induction false} NoHeartbeatNoRow(events: seq<Event>, user: string)
    requires forall k :: 0 <= k < |events| ==> !IsBeatOf(events[k], user)
    ensures user !in Rows(events)
  {
    if events != [] {
      NoHeartbeatNoRow(events[..|events| - 1], user);
      assert !IsBeatOf(events[|events| - 1], user);
    }
  }

  /** The status query over runs: until a minute after the whole second of a user's last heartbeat it answers
      the status that the heartbeat gave, whatever came from others and whatever cleanups ran in between;
      after that it answers offline. It always tells when the user was last seen. */
  lemma StatusFollowsHeartbeat(events: seq<Event>, i: nat, user: string, now: int)
    requires user != "" && LastBeatAt(events, i, user)
    requires forall k :: i < k < |events| && events[k].Cleanup? ==> events[k].now <= now
    ensures
      var second := events[i].now / 1_000_000_000;
      StatusOf(Rows(events), user, now) ==
      Answer(if now - second * 1_000_000_000 <= 60_000_000_000 then events[i].status else 0, second)
  {
    RowIsLastHeartbeat(events, i, user);
    var second := events[i].now / 1_000_000_000;
    if k :| i < k < |events| && SweepsSecond(events[k], second) {
      SweptIsOld(second, events[k].now, now);
    }
  }

  lemma SweptIsOld(second: int, cleanup: int, now: int)
    requires second < (cleanup - 60_000_000_000) / 1_000_000_000 && cleanup <= now
    ensures now - second * 1_000_000_000 > 60_000_000_000
  {
  }

  lemma NoHeartbeatIsOffline(events: seq<Event>, user: string, now: int)
    requires user != "" && forall k :: 0 <= k < |events| ==> !IsBeatOf(events[k], user)
    ensures StatusOf(Rows(events), user, now) == Answer(0, 0)
  {
    NoHeartbeatNoRow(events, user);
  }

  /** The overview over runs: it counts a user exactly until sixty-one seconds after the whole second of the
      last heartbeat, if that said online, when no later cleanup read a later second than the overview. */
  lemma CountFollowsHeartbeat(events: seq<Event>, i: nat, user: string, now: int)
    requires user != "" && LastBeatAt(events, i, user)
    requires forall k :: i < k < |events| && events[k].Cleanup? ==>
               events[k].now / 1_000_000_000 <= now / 1_000_000_000
    ensures user in CountedOnline(Rows(events), now) <==>
            events[i].status == 1 &&
            now - events[i].now / 1_000_000_000 * 1_000_000_000 < 61_000_000_000
  {
    RowIsLastHeartbeat(events, i, user);
    OnlineByAge(Rows(events), user, now);
    var second := events[i].now / 1_000_000_000;
    if k :| i < k < |events| && SweepsSecond(events[k], second) {
      assert now - second * 1_000_000_000 >= 61_000_000_000;
    }
  }

  function WithoutCleanups(events: seq<Event>): seq<Event> {
    if events == [] then []
    else
      var e := events[|events| - 1];
      WithoutCleanups(events[..|events| - 1]) + if e.Cleanup? then [] else [e]
  }

  /** No cleanup has worked with a clock reading later than `limit`. */
  ghost predicate CleanupsUpTo(events: seq<Event>, limit: int) {
    forall i :: 0 <= i < |events| && events[i].Cleanup? ==> events[i].now <= limit
  }

  /** The tables with and without cleanups differ only in the status of rows that are stale at `limit`. */
  ghost predicate Alike(with: Table, without: Table, limit: int) {
    && with.Keys == without.Keys
    && forall u :: u in with ==>
         with[u] == without[u] || (Stale(without[u], limit) && with[u] == without[u].(status := OFFLINE))
  }

  lemma StaleLater(row: Row, now: int, later: int)
    requires Stale(row, now) && now <= later
    ensures Stale(row, later)
  {
  }

  lemma {:induction false} CleanupsLeaveTablesAlike(events: seq<Event>, limit: int)
    requires CleanupsUpTo(events, limit)
    ensures Alike(Rows(events), Rows(WithoutCleanups(events)), limit)
  {
    if events != [] {
      var before, e := events[..|events| - 1], events[|events| - 1];
      CleanupsLeaveTablesAlike(before, limit);
      if e.Cleanup? {
        assert WithoutCleanups(events) == WithoutCleanups(before);
        var with := Rows(before);
        forall u | u in with && Stale(with[u], e.now)
          ensures Stale(with[u], limit)
        {
          StaleLater(with[u], e.now, limit);
        }
      } else {
        assert WithoutCleanups(events)[..|WithoutCleanups(before)|] == WithoutCleanups(before);
      }
    }
  }

  /** When the statements ran: one after the other, each after the clock reading that it works with. */
  ghost predicate IsTimeline(events: seq<Event>, ran: seq<int>) {
    && |ran| == |events|
    && (forall i, j :: 0 <= i < j < |ran| ==> ran[i] <= ran[j])
    && forall i :: 0 <= i < |events| ==> events[i].now <= ran[i]
  }

  /** Cleaning up is invisible to status queries: deleting every cleanup from a run changes no answer. The
      query reads its clock after its own statement, which runs after those of the events, so `now` is
      not before any of them. */
  lemma CleanupInvisibleToStatus(events: seq<Event>, ran: seq<int>, user: string, now: int)
    requires IsTimeline(events, ran)
    requires forall i :: 0 <= i < |ran| ==> ran[i] <= now
    ensures StatusOf(Rows(events), user, now) == StatusOf(Rows(WithoutCleanups(events)), user, now)
  {
    CleanupsLeaveTablesAlike(events, now);
    var without := Rows(WithoutCleanups(events));
    if user in without && Stale(without[user], now) {
      StaleIsOffline(without[user], now);
    }
  }

  /** The second-wise test of the cleanup implies the nanosecond-wise test of the query. */
  lemma StaleIsOffline(row: Row, now: int)
    requires Stale(row, now)
    ensures now - row.lastSeen * SECOND > MINUTE
  {
  }

  /** ... and to the overview, when the overview's clock reading is not in an earlier second than the
      reading of a cleanup that ran before its query. */
  lemma CleanupInvisibleToOverview(events: seq<Event>, now: int, limit: int)
    requires CleanupsUpTo(events, limit) && Unix(limit) <= Unix(now)
    ensures CountedOnline(Rows(events), now) == CountedOnline(Rows(WithoutCleanups(events)), now)
  {
    CleanupsLeaveTablesAlike(events, limit);
  }

  ghost predicate NeverHides(cleanup: int, overview: int) {
    forall rows: Table :: CountedOnline(Swept(rows, cleanup), overview) == CountedOnline(rows, overview)
  }

  /** That condition is exact: a cleanup leaves the overview's set of users as it is, on every table, if
      and only if its clock reading is not in a later second than the overview's. */
  lemma CleanupHidesIffLaterSecond(cleanup: int, overview: int)
    ensures NeverHides(cleanup, overview) <==> Unix(cleanup) <= Unix(overview)
  {
    if Unix(cleanup) > Unix(overview) {
      var rows: Table := map["u" := Row(ONLINE, Unix(overview - MINUTE), 0)];
      assert "u" in CountedOnline(rows, overview);
      assert "u" !in CountedOnline(Swept(rows, cleanup), overview);
    } else {
      forall rows: Table
        ensures CountedOnline(Swept(rows, cleanup), overview) == CountedOnline(rows, overview)
      {
      }
    }
  }

  // ---------- The two notions of being online ----------

  /** Who is reported online was seen at most sixty seconds ago; who is counted, less than sixty-one. */
  lemma OnlineByAge(rows: Table, user: string, now: int)
    requires user != "" && user in rows
    ensures StatusOf(rows, user, now).status == 1 <==>
            rows[user].status == 1 && now - rows[user].lastSeen * 1_000_000_000 <= 60_000_000_000
    ensures user in CountedOnline(rows, now) <==>
            rows[user].status == 1 && now - rows[user].lastSeen * 1_000_000_000 < 61_000_000_000
  {
    SecondsTruncate(rows[user].lastSeen, now);
  }

  lemma SecondsTruncate(lastSeen: int, now: int)
    ensures lastSeen >= Unix(now - MINUTE) <==> now - lastSeen * SECOND < MINUTE + SECOND
  {
  }

  /** At any instant the users reported online are all counted, and whoever is counted but not reported
      online was seen between sixty and sixty-one seconds ago. */
  lemma PresenceSandwich(rows: Table, user: string, now: int)
    requires user != ""
    ensures StatusOf(rows, user, now).status == ONLINE ==> user in CountedOnline(rows, now)
    ensures user in CountedOnline(rows, now) && StatusOf(rows, user, now).status != ONLINE ==>
              60_000_000_000 < now - rows[user].lastSeen * 1_000_000_000 < 61_000_000_000
  {
    if user in rows {
      OnlineByAge(rows, user, now);
    }
  }
}
