/** The audit service: an append-only file of newline-framed entries, each carrying the hash of the one
    before it. Serialisation and hashing are foreign code and come in as functions. */
module AuditChain {
  import opened Channels

  datatype Event = Event(
    timestamp: int,
    actorId: string,
    action: string,
    targetResource: string,
    details: string,
    prevHash: string)

  datatype Codec = Codec(encode: Event -> string, decode: string -> Option<Event>, hash: string -> string)

  const GENESIS := "0000000000000000000000000000000000000000000000000000000000000000"

  /** JSON on one line, which reads back. */
  ghost predicate OneLineJson(c: Codec) {
    forall e :: c.decode(c.encode(e)) == Some(e) && '\n' !in c.encode(e)
  }

  ghost predicate InjectiveHash(c: Codec) {
    forall a, b :: c.hash(a) == c.hash(b) ==> a == b
  }

  /** Nothing hashes to the value that chains start from. */
  ghost predicate GenesisIsNoHash(c: Codec) {
    forall a :: c.hash(a) != GENESIS
  }

  datatype Log = Log(file: string, lastHash: string)

  /** One request in the order in which the mutex lets them through: the event as validated, the clock
      reading, and whether the write succeeds. */
  datatype Request = Request(event: Event, now: int, written: bool)

  function Stamped(r: Request, lastHash: string): Event {
    r.event.(timestamp := r.now, prevHash := lastHash)
  }

  function After(c: Codec, log: Log, r: Request): Log {
    var data := c.encode(Stamped(r, log.lastHash));
    Log(if r.written then log.file + data + "\n" else log.file, c.hash(data))
  }

  class AuditService {
    const codec: Codec
    var logFile: string
    var lastHash: string

    ghost function Model(): Log
      reads this
    {
      Log(logFile, lastHash)
    }

    /** Opens the file for appending; the chain starts anew whatever the file holds. */
    constructor (codec: Codec, existing: string)
      ensures this.codec == codec && Model() == Log(existing, GENESIS)
    {
      this.codec := codec;
      logFile, lastHash := existing, GENESIS;
    }

    /** The hash moves on before the write, so a failed write leaves it ahead of the file. */
    method LogEvent(event: Event, now: int, writeSucceeds: bool) returns (created: bool)
      modifies this
      ensures created == writeSucceeds
      ensures Model() == After(codec, old(Model()), Request(event, now, writeSucceeds))
      ensures
        var data := codec.encode(
          Event(now, event.actorId, event.action, event.targetResource, event.details, old(lastHash)));
        && lastHash == codec.hash(data)
        && logFile == if writeSucceeds then old(logFile) + data + "\n" else old(logFile)
    {
      var stamped := event.(timestamp := now);
      stamped := stamped.(prevHash := lastHash);
      var data := codec.encode(stamped);
      lastHash := codec.hash(data);
      if !writeSucceeds {
        return false;
      }
      logFile := logFile + data + "\n";
      return true;
    }
  }

  // ---------- The file and its check ----------

  function Framed(lines: seq<string>): string {
    if lines == [] then [] else Framed(lines[..|lines| - 1]) + lines[|lines| - 1] + "\n"
  }

  /** The newline-terminated lines of a file; an unterminated rest is dropped. */
  function Lines(file: string, line: string := []): seq<string> {
    if file == [] then []
    else if file[0] == '\n' then [line] + Lines(file[1..], [])
    else Lines(file[1..], line + [file[0]])
  }

  /** Recompute and compare: every line decodes, and its recorded hash is that of the line before it. */
  function Passes(c: Codec, lines: seq<string>, start: string): bool {
    if lines == [] then true
    else
      var n := |lines| - 1;
      && Passes(c, lines[..n], start)
      && c.decode(lines[n]).Some?
      && c.decode(lines[n]).value.prevHash == EndHash(c, lines[..n], start)
  }

  function EndHash(c: Codec, lines: seq<string>, start: string): string {
    if lines == [] then start else c.hash(lines[|lines| - 1])
  }

  // ---------- Runs ----------

  function Run(c: Codec, log: Log, requests: seq<Request>): Log {
    if requests == [] then log
    else After(c, Run(c, log, requests[..|requests| - 1]), requests[|requests| - 1])
  }

  /** The events that were written, as they were written. */
  function Logged(c: Codec, log: Log, requests: seq<Request>): seq<Event> {
    if requests == [] then []
    else
      var before, r := requests[..|requests| - 1], requests[|requests| - 1];
      Logged(c, log, before) + if r.written then [Stamped(r, Run(c, log, before).lastHash)] else []
  }

  function Encoded(c: Codec, events: seq<Event>): seq<string> {
    seq(|events|, i requires 0 <= i < |events| => c.encode(events[i]))
  }

  /** The lines that one process adds, and the hash that it then holds. */
  function Chain(c: Codec, requests: seq<Request>): seq<string> {
    Encoded(c, Logged(c, Log("", GENESIS), requests))
  }

  function Held(c: Codec, requests: seq<Request>): string {
    Run(c, Log("", GENESIS), requests).lastHash
  }

  /** What a request makes of its event, whether or not it is then written. */
  function Entry(c: Codec, requests: seq<Request>, k: nat): Event
    requires k < |requests|
  {
    Stamped(requests[k], Held(c, requests[..k]))
  }

  predicate AllWritten(requests: seq<Request>) {
    forall r :: r in requests ==> r.written
  }

  lemma {:induction false} RunAppends(c: Codec, log: Log, requests: seq<Request>)
    ensures Run(c, log, requests).file == log.file + Framed(Encoded(c, Logged(c, log, requests)))
  {
    if requests == [] {
      assert Encoded(c, []) == [];
    } else {
      var before, r := requests[..|requests| - 1], requests[|requests| - 1];
      RunAppends(c, log, before);
      if r.written {
        var lines := Encoded(c, Logged(c, log, before));
        assert Encoded(c, Logged(c, log, requests)) == lines + [c.encode(Stamped(r, Run(c, log, before).lastHash))];
        assert Encoded(c, Logged(c, log, requests))[..|lines|] == lines;
      } else {
        assert Logged(c, log, requests) == Logged(c, log, before);
      }
    }
  }

  lemma {:induction false} LinesOfOne(line: string, rest: string, prefix: string)
    requires '\n' !in line
    ensures Lines(line + "\n" + rest, prefix) == [prefix + line] + Lines(rest, [])
    decreases |line|
  {
    var file := line + "\n" + rest;
    if line == [] {
      assert file[1..] == rest;
      assert prefix + line == prefix;
    } else {
      assert file[1..] == line[1..] + "\n" + rest;
      LinesOfOne(line[1..], rest, prefix + [line[0]]);
      assert prefix + [line[0]] + line[1..] == prefix + line;
    }
  }

  lemma {:induction false} LinesOfFramed(lines: seq<string>, rest: string)
    requires forall l :: l in lines ==> '\n' !in l
    ensures Lines(Framed(lines) + rest) == lines + Lines(rest)
    decreases |lines|
  {
    if lines == [] {
      assert Framed(lines) + rest == rest;
    } else {
      var n := |lines| - 1;
      assert Framed(lines) + rest == Framed(lines[..n]) + (lines[n] + "\n" + rest);
      LinesOfFramed(lines[..n], lines[n] + "\n" + rest);
      LinesOfOne(lines[n], rest, []);
      assert lines == lines[..n] + [lines[n]];
      assert [] + lines[n] == lines[n];
    }
  }

  /** The file written by one process reads back line by line as the logged events. */
  lemma FileReadsBack(c: Codec, requests: seq<Request>)
    requires OneLineJson(c)
    ensures
      var events := Logged(c, Log("", GENESIS), requests);
      var lines := Lines(Run(c, Log("", GENESIS), requests).file);
      |lines| == |events| && forall i :: 0 <= i < |lines| ==> c.decode(lines[i]) == Some(events[i])
  {
    var log := Log("", GENESIS);
    var events := Logged(c, log, requests);
    RunAppends(c, log, requests);
    assert Run(c, log, requests).file == Framed(Encoded(c, events)) + "";
    forall l | l in Encoded(c, events) ensures '\n' !in l {
      var i :| 0 <= i < |events| && l == c.encode(events[i]);
    }
    LinesOfFramed(Encoded(c, events), "");
  }

  /** With no failed write the logged events form one chain, and the service holds its last hash. */
  lemma {:induction false} WrittenRunsPass(c: Codec, log: Log, requests: seq<Request>)
    requires OneLineJson(c) && AllWritten(requests)
    ensures
      var lines := Encoded(c, Logged(c, log, requests));
      Passes(c, lines, log.lastHash) && EndHash(c, lines, log.lastHash) == Run(c, log, requests).lastHash
    ensures |Logged(c, log, requests)| == |requests|
  {
    if requests == [] {
      assert Encoded(c, []) == [];
    } else {
      var before, r := requests[..|requests| - 1], requests[|requests| - 1];
      WrittenRunsPass(c, log, before);
      assert r in requests;
      var lines := Encoded(c, Logged(c, log, before));
      var all := Encoded(c, Logged(c, log, requests));
      assert all == lines + [c.encode(Stamped(r, Run(c, log, before).lastHash))];
      assert all[..|lines|] == lines;
    }
  }

  /** If all writes of one process succeed, then for every order of the requests the file passes the check
      from genesis and holds one line for each request. */
  lemma FilePassesCheck(c: Codec, requests: seq<Request>)
    requires OneLineJson(c) && AllWritten(requests)
    ensures
      var lines := Lines(Run(c, Log("", GENESIS), requests).file);
      |lines| == |requests| && Passes(c, lines, GENESIS)
  {
    FileIsEncodedEvents(c, Log("", GENESIS), requests);
    WrittenRunsPass(c, Log("", GENESIS), requests);
  }

  lemma FileIsEncodedEvents(c: Codec, log: Log, requests: seq<Request>)
    requires OneLineJson(c) && log.file == ""
    ensures Lines(Run(c, log, requests).file) == Encoded(c, Logged(c, log, requests))
  {
    var lines := Encoded(c, Logged(c, log, requests));
    RunAppends(c, log, requests);
    assert Run(c, log, requests).file == Framed(lines) + "";
    LinesOfFramed(lines, "");
    assert lines + Lines("") == lines;
  }

  // ---------- Tampering ----------

  /** Under an injective hash, two files of equal length that pass the check from the same start and end in
      the same hash are identical, line by line. */
  lemma {:induction false} ChainDeterminesFile(c: Codec, a: seq<string>, b: seq<string>, start: string)
    requires InjectiveHash(c)
    requires |a| == |b| && Passes(c, a, start) && Passes(c, b, start)
    requires EndHash(c, a, start) == EndHash(c, b, start)
    ensures a == b
    decreases |a|
  {
    if a != [] {
      var n := |a| - 1;
      assert a[n] == b[n];
      ChainDeterminesFile(c, a[..n], b[..n], start);
      assert a == a[..n] + [a[n]] && b == b[..n] + [b[n]];
    }
  }

  /** So replacing any line of a passing file breaks the check or changes the final hash. */
  lemma TamperingIsDetected(c: Codec, lines: seq<string>, i: nat, line: string)
    requires InjectiveHash(c)
    requires i < |lines| && Passes(c, lines, GENESIS) && line != lines[i]
    ensures !Passes(c, lines[i := line], GENESIS) ||
            EndHash(c, lines[i := line], GENESIS) != EndHash(c, lines, GENESIS)
  {
    var other := lines[i := line];
    if Passes(c, other, GENESIS) && EndHash(c, other, GENESIS) == EndHash(c, lines, GENESIS) {
      ChainDeterminesFile(c, other, lines, GENESIS);
    }
  }

  /** When nothing hashes to genesis the length does not matter: files that pass from genesis and end in the
      same hash are identical. So inserting, deleting or reordering lines is detected just as well. */
  lemma {:induction false} EndHashDeterminesFile(c: Codec, a: seq<string>, b: seq<string>)
    requires InjectiveHash(c) && GenesisIsNoHash(c)
    requires Passes(c, a, GENESIS) && Passes(c, b, GENESIS)
    ensures EndHash(c, a, GENESIS) == EndHash(c, b, GENESIS) <==> a == b
    decreases |a|
  {
    if EndHash(c, a, GENESIS) == EndHash(c, b, GENESIS) && a != [] {
      var n, m := |a| - 1, |b| - 1;
      assert b != [] && a[n] == b[m];
      EndHashDeterminesFile(c, a[..n], b[..m]);
      assert a == a[..n] + [a[n]] && b == b[..m] + [b[m]];
    }
  }

  // ---------- Failed writes ----------

  /** No write succeeds after one that failed. */
  predicate FailuresLast(requests: seq<Request>) {
    forall i, j :: 0 <= i < j < |requests| && !requests[i].written ==> !requests[j].written
  }

  /** The process holds the hash of the last entry, written or not. */
  lemma HeldIsLast(c: Codec, requests: seq<Request>)
    requires requests != []
    ensures Held(c, requests) == c.hash(c.encode(Entry(c, requests, |requests| - 1)))
  {
  }

  lemma EntryLinks(c: Codec, requests: seq<Request>, k: nat)
    requires k < |requests|
    ensures Entry(c, requests, k).prevHash ==
            if k == 0 then GENESIS else c.hash(c.encode(Entry(c, requests, k - 1)))
  {
    if k > 0 {
      HeldIsLast(c, requests[..k]);
      assert requests[..k][..k - 1] == requests[..k - 1];
    }
  }

  lemma SameEntry(c: Codec, a: Event, b: Event)
    requires OneLineJson(c) && InjectiveHash(c)
    requires c.hash(c.encode(a)) == c.hash(c.encode(b))
    ensures a == b
  {
    assert c.decode(c.encode(a)) == c.decode(c.encode(b));
  }

  /** All entries of one process differ, even when the same event is logged at the same clock reading:
      each refers to the one before, down to the first, which refers to genesis. */
  lemma {:induction false} EntriesDiffer(c: Codec, requests: seq<Request>, j: nat, k: nat)
    requires OneLineJson(c) && InjectiveHash(c) && GenesisIsNoHash(c)
    requires j < k < |requests|
    ensures Entry(c, requests, j) != Entry(c, requests, k)
  {
    EntryLinks(c, requests, j);
    EntryLinks(c, requests, k);
    if j > 0 {
      EntriesDiffer(c, requests, j - 1, k - 1);
      if Entry(c, requests, j) == Entry(c, requests, k) {
        SameEntry(c, Entry(c, requests, j - 1), Entry(c, requests, k - 1));
      }
    }
  }

  lemma EntryOfPrefix(c: Codec, before: seq<Request>, r: Request, k: nat)
    requires k < |before|
    ensures Entry(c, before + [r], k) == Entry(c, before, k)
  {
    assert (before + [r])[..k] == before[..k];
  }

  /** One request more adds its entry to the chain, or nothing. */
  lemma ChainSnoc(c: Codec, before: seq<Request>, r: Request)
    ensures Chain(c, before + [r]) ==
            Chain(c, before) + if r.written then [c.encode(Stamped(r, Held(c, before)))] else []
  {
    assert (before + [r])[..|before|] == before;
  }

  /** Every line is the entry of a written request. */
  ghost predicate IsWritten(c: Codec, requests: seq<Request>, line: string) {
    exists k :: 0 <= k < |requests| && requests[k].written && line == c.encode(Entry(c, requests, k))
  }

  lemma {:induction false} LinesAreEntries(c: Codec, requests: seq<Request>)
    ensures forall l :: l in Chain(c, requests) ==> IsWritten(c, requests, l)
  {
    if requests != [] {
      var before, r := requests[..|requests| - 1], requests[|requests| - 1];
      LinesAreEntries(c, before);
      ChainSnoc(c, before, r);
      assert requests == before + [r];
      forall l | l in Chain(c, requests) ensures IsWritten(c, requests, l) {
        if l in Chain(c, before) {
          var k :| 0 <= k < |before| && before[k].written && l == c.encode(Entry(c, before, k));
          EntryOfPrefix(c, before, r, k);
          assert requests[k].written;
        } else {
          assert l == c.encode(Entry(c, requests, |before|));
        }
      }
    }
  }

  /** The last line is the entry of the last request if that was written. */
  lemma LastLine(c: Codec, requests: seq<Request>)
    requires requests != [] && requests[|requests| - 1].written
    ensures Chain(c, requests) != []
    ensures Chain(c, requests)[|Chain(c, requests)| - 1] == c.encode(Entry(c, requests, |requests| - 1))
  {
    var before, r := requests[..|requests| - 1], requests[|requests| - 1];
    assert requests == before + [r];
    ChainSnoc(c, before, r);
  }

  /** The service holds the hash that the file's last line calls for if and only if its last request was
      written. */
  lemma InStepIffLastWritten(c: Codec, requests: seq<Request>)
    requires OneLineJson(c) && InjectiveHash(c) && GenesisIsNoHash(c)
    requires requests != []
    ensures Held(c, requests) == EndHash(c, Chain(c, requests), GENESIS) <==> requests[|requests| - 1].written
  {
    var n := |requests| - 1;
    var lines := Chain(c, requests);
    HeldIsLast(c, requests);
    if requests[n].written {
      LastLine(c, requests);
    } else if lines != [] {
      LinesAreEntries(c, requests);
      assert IsWritten(c, requests, lines[|lines| - 1]);
      var k :| 0 <= k < |requests| && requests[k].written && lines[|lines| - 1] == c.encode(Entry(c, requests, k));
      EntriesDiffer(c, requests, k, n);
      if Held(c, requests) == EndHash(c, lines, GENESIS) {
        SameEntry(c, Entry(c, requests, k), Entry(c, requests, n));
      }
    }
  }

  /** With writes that may fail, the file of one process passes the check if and only if no write succeeded
      after one that failed: the hash has moved on, and the file has not. */
  lemma PassesIffFailuresLast(c: Codec, requests: seq<Request>)
    requires OneLineJson(c) && InjectiveHash(c) && GenesisIsNoHash(c)
    ensures Passes(c, Lines(Run(c, Log("", GENESIS), requests).file), GENESIS) <==> FailuresLast(requests)
  {
    FileIsEncodedEvents(c, Log("", GENESIS), requests);
    ChainPassesIffFailuresLast(c, requests);
  }

  lemma {:induction false} ChainPassesIffFailuresLast(c: Codec, requests: seq<Request>)
    requires OneLineJson(c) && InjectiveHash(c) && GenesisIsNoHash(c)
    ensures Passes(c, Chain(c, requests), GENESIS) <==> FailuresLast(requests)
  {
    if requests == [] {
      assert Chain(c, requests) == [];
    } else {
      var before, r := requests[..|requests| - 1], requests[|requests| - 1];
      assert requests == before + [r];
      ChainPassesIffFailuresLast(c, before);
      FailuresLastSnoc(before, r);
      ChainSnoc(c, before, r);
      if r.written {
        WrittenPassesIff(c, before, r);
      } else {
        assert Chain(c, before) + [] == Chain(c, before);
      }
    }
  }

  /** A further written entry extends a passing chain exactly when the request before it was written. */
  lemma WrittenPassesIff(c: Codec, before: seq<Request>, r: Request)
    requires OneLineJson(c) && InjectiveHash(c) && GenesisIsNoHash(c)
    ensures Passes(c, Chain(c, before) + [c.encode(Stamped(r, Held(c, before)))], GENESIS) <==>
            Passes(c, Chain(c, before), GENESIS) && (before != [] ==> before[|before| - 1].written)
  {
    PassesSnoc(c, Chain(c, before), c.encode(Stamped(r, Held(c, before))), GENESIS);
    if before == [] {
      assert Chain(c, before) == [];
    } else {
      InStepIffLastWritten(c, before);
    }
  }

  lemma PassesSnoc(c: Codec, lines: seq<string>, line: string, start: string)
    ensures Passes(c, lines + [line], start) <==>
            Passes(c, lines, start) && c.decode(line).Some? && c.decode(line).value.prevHash == EndHash(c, lines, start)
  {
    assert (lines + [line])[..|lines|] == lines;
  }

  lemma FailuresLastSnoc(before: seq<Request>, r: Request)
    ensures FailuresLast(before + [r]) <==>
            FailuresLast(before) && (r.written && before != [] ==> before[|before| - 1].written)
  {
    var all := before + [r];
    assert all[..|before|] == before;
    if FailuresLast(all) {
      assert before != [] && !all[|before| - 1].written ==> !all[|before|].written;
      forall i, j | 0 <= i < j < |before| && !before[i].written ensures !before[j].written {
        assert !all[i].written && !all[j].written;
      }
    }
    if FailuresLast(before) && (r.written && before != [] ==> before[|before| - 1].written) {
      forall i, j | 0 <= i < j < |all| && !all[i].written ensures !all[j].written {
        if j == |before| {
          assert !before[|before| - 1].written;
        }
      }
    }
  }

  // ---------- What the lines say ----------

  /** The positions of the written requests, in order. */
  function WrittenAt(requests: seq<Request>): (at: seq<nat>)
    ensures forall k :: k in at <==> 0 <= k < |requests| && requests[k].written
    ensures forall i :: 0 <= i < |at| ==> at[i] < |requests| && requests[at[i]].written
    ensures forall i, j :: 0 <= i < j < |at| ==> at[i] < at[j]
  {
    if requests == [] then []
    else
      var n := |requests| - 1;
      var rest := WrittenAt(requests[..n]);
      assert forall i :: 0 <= i < |rest| ==> rest[i] < n;
      if requests[n].written then rest + [n] else rest
  }

  lemma {:induction false} LinesInOrder(c: Codec, requests: seq<Request>)
    ensures |Chain(c, requests)| == |WrittenAt(requests)|
    ensures forall i :: 0 <= i < |Chain(c, requests)| ==>
              Chain(c, requests)[i] == c.encode(Entry(c, requests, WrittenAt(requests)[i]))
  {
    if requests != [] {
      var before, r := requests[..|requests| - 1], requests[|requests| - 1];
      assert requests == before + [r];
      LinesInOrder(c, before);
      ChainSnoc(c, before, r);
      forall i | 0 <= i < |Chain(c, requests)|
        ensures Chain(c, requests)[i] == c.encode(Entry(c, requests, WrittenAt(requests)[i]))
      {
        if i < |Chain(c, before)| {
          EntryOfPrefix(c, before, r, WrittenAt(before)[i]);
        }
      }
    }
  }

  /** What a line says: the request's own actor, action, target and details, and its clock reading. */
  ghost predicate Records(c: Codec, line: string, r: Request) {
    && c.decode(line).Some?
    && c.decode(line).value.actorId == r.event.actorId
    && c.decode(line).value.action == r.event.action
    && c.decode(line).value.targetResource == r.event.targetResource
    && c.decode(line).value.details == r.event.details
    && c.decode(line).value.timestamp == r.now
  }

  lemma EntryRecords(c: Codec, requests: seq<Request>, k: nat)
    requires OneLineJson(c) && k < |requests|
    ensures Records(c, c.encode(Entry(c, requests, k)), requests[k])
    ensures c.decode(c.encode(Entry(c, requests, k))).value.prevHash ==
            if k == 0 then "0000000000000000000000000000000000000000000000000000000000000000"
            else c.hash(c.encode(Entry(c, requests, k - 1)))
  {
    EntryLinks(c, requests, k);
  }

  /** The file of one process, whatever writes fail: it has one line for each written request, in order, and
      the line records that request. A line names genesis when its request is the first of all, and the line
      before when the request before was written. */
  lemma FileRecordsRequests(c: Codec, requests: seq<Request>)
    requires OneLineJson(c)
    ensures
      var lines := Lines(Run(c, Log("", GENESIS), requests).file);
      var at := WrittenAt(requests);
      && |lines| == |at|
      && (forall i :: 0 <= i < |lines| ==> Records(c, lines[i], requests[at[i]]))
      && (forall i :: 0 <= i < |lines| && at[i] == 0 ==>
            c.decode(lines[i]).value.prevHash == "0000000000000000000000000000000000000000000000000000000000000000")
      && (forall i :: 0 < i < |lines| && at[i - 1] + 1 == at[i] ==>
            c.decode(lines[i]).value.prevHash == c.hash(lines[i - 1]))
  {
    var lines, at := Chain(c, requests), WrittenAt(requests);
    FileIsEncodedEvents(c, Log("", GENESIS), requests);
    LinesInOrder(c, requests);
    forall i | 0 <= i < |lines|
      ensures Records(c, lines[i], requests[at[i]])
      ensures at[i] == 0 ==>
                c.decode(lines[i]).value.prevHash == "0000000000000000000000000000000000000000000000000000000000000000"
      ensures i > 0 && at[i - 1] + 1 == at[i] ==> c.decode(lines[i]).value.prevHash == c.hash(lines[i - 1])
    {
      EntryRecords(c, requests, at[i]);
    }
  }

  lemma {:induction false} AllAreWritten(requests: seq<Request>)
    requires AllWritten(requests)
    ensures |WrittenAt(requests)| == |requests|
    ensures forall i :: 0 <= i < |requests| ==> WrittenAt(requests)[i] == i
  {
    if requests != [] {
      var n := |requests| - 1;
      var rest := WrittenAt(requests[..n]);
      AllAreWritten(requests[..n]);
      assert requests[n] in requests;
      assert WrittenAt(requests) == rest + [n];
    }
  }

  /** With no failed write, line i records request i, and names genesis or the line before. */
  lemma WrittenFileRecordsRequests(c: Codec, requests: seq<Request>)
    requires OneLineJson(c) && AllWritten(requests)
    ensures
      var lines := Lines(Run(c, Log("", GENESIS), requests).file);
      && |lines| == |requests|
      && forall i :: 0 <= i < |lines| ==>
           && Records(c, lines[i], requests[i])
           && c.decode(lines[i]).value.prevHash ==
                if i == 0 then "0000000000000000000000000000000000000000000000000000000000000000"
                else c.hash(lines[i - 1])
  {
    FileRecordsRequests(c, requests);
    AllAreWritten(requests);
  }

  // ---------- Restarts ----------

  /** The file after several processes, each appending to what the one before it left. */
  function Sessions(c: Codec, sessions: seq<seq<Request>>): string {
    if sessions == [] then ""
    else
      var n := |sessions| - 1;
      Run(c, Log(Sessions(c, sessions[..n]), GENESIS), sessions[n]).file
  }

  function Chains(c: Codec, sessions: seq<seq<Request>>): seq<string> {
    if sessions == [] then [] else Chains(c, sessions[..|sessions| - 1]) + Chain(c, sessions[|sessions| - 1])
  }

  lemma {:induction false} FileDoesNotMatter(c: Codec, file: string, hash: string, requests: seq<Request>)
    ensures Run(c, Log(file, hash), requests).lastHash == Run(c, Log("", hash), requests).lastHash
    ensures Logged(c, Log(file, hash), requests) == Logged(c, Log("", hash), requests)
  {
    if requests != [] {
      FileDoesNotMatter(c, file, hash, requests[..|requests| - 1]);
    }
  }

  lemma {:induction false} FramedAppend(a: seq<string>, b: seq<string>)
    ensures Framed(a + b) == Framed(a) + Framed(b)
  {
    if b == [] {
      assert a + b == a;
    } else {
      var n := |b| - 1;
      assert (a + b)[..|a + b| - 1] == a + b[..n];
      FramedAppend(a, b[..n]);
    }
  }

  lemma {:induction false} SessionsAreFramedChains(c: Codec, sessions: seq<seq<Request>>)
    ensures Sessions(c, sessions) == Framed(Chains(c, sessions))
  {
    if sessions != [] {
      var n := |sessions| - 1;
      SessionsAreFramedChains(c, sessions[..n]);
      var file := Sessions(c, sessions[..n]);
      RunAppends(c, Log(file, GENESIS), sessions[n]);
      FileDoesNotMatter(c, file, GENESIS, sessions[n]);
      FramedAppend(Chains(c, sessions[..n]), Chain(c, sessions[n]));
    }
  }

  lemma {:induction false} ChainsAreOneLine(c: Codec, sessions: seq<seq<Request>>)
    requires OneLineJson(c)
    ensures forall l :: l in Chains(c, sessions) ==> '\n' !in l
  {
    if sessions != [] {
      ChainsAreOneLine(c, sessions[..|sessions| - 1]);
    }
  }

  /** A file that spans restarts is a concatenation of chains, and each chain passes from genesis when all
      writes of its process succeeded. */
  lemma RestartsConcatenateChains(c: Codec, sessions: seq<seq<Request>>)
    requires OneLineJson(c)
    ensures Lines(Sessions(c, sessions)) == Chains(c, sessions)
    ensures forall i :: 0 <= i < |sessions| && AllWritten(sessions[i]) ==> Passes(c, Chain(c, sessions[i]), GENESIS)
  {
    SessionsAreFramedChains(c, sessions);
    ChainsAreOneLine(c, sessions);
    assert Sessions(c, sessions) == Framed(Chains(c, sessions)) + "";
    LinesOfFramed(Chains(c, sessions), "");
    forall i | 0 <= i < |sessions| && AllWritten(sessions[i])
      ensures Passes(c, Chain(c, sessions[i]), GENESIS)
    {
      WrittenRunsPass(c, Log("", GENESIS), sessions[i]);
    }
  }

  lemma {:induction false} PassesAppend(c: Codec, a: seq<string>, b: seq<string>, start: string)
    ensures Passes(c, a + b, start) <==> Passes(c, a, start) && Passes(c, b, EndHash(c, a, start))
    ensures EndHash(c, a + b, start) == EndHash(c, b, EndHash(c, a, start))
  {
    if b == [] {
      assert a + b == a;
    } else {
      var n := |b| - 1;
      assert (a + b)[..|a + b| - 1] == a + b[..n];
      PassesAppend(c, a, b[..n], start);
    }
  }

  /** The first line of a passing chain names its start. */
  lemma {:induction false} PassesFrom(c: Codec, lines: seq<string>, start: string)
    requires lines != [] && Passes(c, lines, start)
    ensures c.decode(lines[0]).Some? && c.decode(lines[0]).value.prevHash == start
  {
    if |lines| > 1 {
      PassesFrom(c, lines[..|lines| - 1], start);
    }
  }

  predicate NothingWritten(requests: seq<Request>) {
    forall r :: r in requests ==> !r.written
  }

  lemma {:induction false} EmptyIffNothingWritten(c: Codec, requests: seq<Request>)
    ensures Chain(c, requests) == [] <==> NothingWritten(requests)
  {
    if requests != [] {
      var before, r := requests[..|requests| - 1], requests[|requests| - 1];
      assert requests == before + [r];
      EmptyIffNothingWritten(c, before);
      ChainSnoc(c, before, r);
    }
  }

  /** No chain starts from the hash of a line of an earlier one. */
  ghost predicate FreshStarts(c: Codec, sessions: seq<seq<Request>>) {
    forall i, j, l, start ::
      (0 <= i < j < |sessions| && l in Chain(c, sessions[i]) && StartsFrom(c, Chain(c, sessions[j]), start)) ==>
        start != c.hash(l)
  }

  predicate StartsFrom(c: Codec, lines: seq<string>, start: string) {
    lines != [] && c.decode(lines[0]).Some? && c.decode(lines[0]).value.prevHash == start
  }

  predicate AtMostOneWrote(sessions: seq<seq<Request>>) {
    forall i, j :: 0 <= i < j < |sessions| ==> NothingWritten(sessions[i]) || NothingWritten(sessions[j])
  }

  ghost predicate EachPasses(c: Codec, sessions: seq<seq<Request>>) {
    forall i :: 0 <= i < |sessions| ==> Passes(c, Chain(c, sessions[i]), GENESIS)
  }

  /** Each line comes from one of the processes. */
  lemma {:induction false} LineOfSession(c: Codec, sessions: seq<seq<Request>>, line: string) returns (i: nat)
    requires line in Chains(c, sessions)
    ensures i < |sessions| && line in Chain(c, sessions[i])
  {
    var n := |sessions| - 1;
    if line in Chain(c, sessions[n]) {
      i := n;
    } else {
      i := LineOfSession(c, sessions[..n], line);
    }
  }

  lemma {:induction false} NoLinesIff(c: Codec, sessions: seq<seq<Request>>)
    ensures Chains(c, sessions) == [] <==> forall i :: 0 <= i < |sessions| ==> NothingWritten(sessions[i])
  {
    if sessions != [] {
      var n := |sessions| - 1;
      NoLinesIff(c, sessions[..n]);
      EmptyIffNothingWritten(c, sessions[n]);
      assert forall i :: 0 <= i < n ==> sessions[..n][i] == sessions[i];
    }
  }

  lemma {:induction false} OneChainIff(c: Codec, sessions: seq<seq<Request>>)
    requires FreshStarts(c, sessions)
    ensures Passes(c, Chains(c, sessions), GENESIS) <==> EachPasses(c, sessions) && AtMostOneWrote(sessions)
  {
    if sessions != [] {
      var n := |sessions| - 1;
      var rest, last := sessions[..n], sessions[n];
      assert sessions == rest + [last];
      FreshStartsOfPrefix(c, sessions, n);
      OneChainIff(c, rest);
      NoLinesIff(c, rest);
      EmptyIffNothingWritten(c, last);
      PassesAppend(c, Chains(c, rest), Chain(c, last), GENESIS);
      SessionsSnoc(c, rest, last);
      if Chains(c, rest) != [] && Chain(c, last) != [] {
        CannotContinue(c, sessions);
      }
    }
  }

  lemma FreshStartsOfPrefix(c: Codec, sessions: seq<seq<Request>>, n: nat)
    requires FreshStarts(c, sessions) && n <= |sessions|
    ensures FreshStarts(c, sessions[..n])
  {
    forall i, j, l, start | 0 <= i < j < n && l in Chain(c, sessions[..n][i]) &&
                            StartsFrom(c, Chain(c, sessions[..n][j]), start)
      ensures start != c.hash(l)
    {
      assert sessions[..n][i] == sessions[i] && sessions[..n][j] == sessions[j];
    }
  }

  lemma SessionsSnoc(c: Codec, rest: seq<seq<Request>>, last: seq<Request>)
    ensures EachPasses(c, rest + [last]) <==> EachPasses(c, rest) && Passes(c, Chain(c, last), GENESIS)
    ensures AtMostOneWrote(rest + [last]) <==>
            AtMostOneWrote(rest) &&
            (NothingWritten(last) || forall i :: 0 <= i < |rest| ==> NothingWritten(rest[i]))
  {
    var all := rest + [last];
    assert forall i :: 0 <= i < |rest| ==> all[i] == rest[i];
    assert all[|rest|] == last;
  }

  /** Nothing that is there can be continued by a process that starts from genesis. */
  lemma CannotContinue(c: Codec, sessions: seq<seq<Request>>)
    requires sessions != [] && FreshStarts(c, sessions)
    requires Chains(c, sessions[..|sessions| - 1]) != [] && Chain(c, sessions[|sessions| - 1]) != []
    ensures !Passes(c, Chain(c, sessions[|sessions| - 1]), EndHash(c, Chains(c, sessions[..|sessions| - 1]), GENESIS))
  {
    var n := |sessions| - 1;
    var a, b := Chains(c, sessions[..n]), Chain(c, sessions[n]);
    var l := a[|a| - 1];
    var i := LineOfSession(c, sessions[..n], l);
    assert sessions[..n][i] == sessions[i];
    if Passes(c, b, c.hash(l)) {
      PassesFrom(c, b, c.hash(l));
      assert StartsFrom(c, b, c.hash(l));
    }
  }

  /** A file of any number of processes whose writes all succeeded passes the check as one chain if and only
      if at most one of them logged anything: otherwise it has to be checked chain by chain. */
  lemma RestartBreaksChain(c: Codec, sessions: seq<seq<Request>>)
    requires OneLineJson(c) && GenesisIsNoHash(c)
    requires forall s :: s in sessions ==> AllWritten(s)
    ensures Passes(c, Lines(Sessions(c, sessions)), GENESIS) <==>
            forall i, j :: 0 <= i < j < |sessions| ==> sessions[i] == [] || sessions[j] == []
  {
    RestartsConcatenateChains(c, sessions);
    forall i, j, l, start | 0 <= i < j < |sessions| && l in Chain(c, sessions[i]) &&
                            StartsFrom(c, Chain(c, sessions[j]), start)
      ensures start != c.hash(l)
    {
      assert sessions[j] in sessions;
      WrittenRunsPass(c, Log("", GENESIS), sessions[j]);
      PassesFrom(c, Chain(c, sessions[j]), GENESIS);
    }
    OneChainIff(c, sessions);
    assert EachPasses(c, sessions);
    forall i | 0 <= i < |sessions| ensures NothingWritten(sessions[i]) <==> sessions[i] == [] {
      assert sessions[i] in sessions;
      if sessions[i] != [] {
        assert sessions[i][0] in sessions[i];
      }
    }
  }

  /** A request of a later process that fails has another clock reading than any that was logged before. */
  predicate FailuresApart(sessions: seq<seq<Request>>) {
    forall i, j, q, r ::
      (0 <= i < j < |sessions| && q in sessions[i] && q.written && r in sessions[j] && !r.written) ==> q.now != r.now
  }

  /** A process starts from genesis, or from the entry of a write that failed. */
  lemma {:induction false} StartOfChain(c: Codec, requests: seq<Request>, start: string)
    requires OneLineJson(c) && StartsFrom(c, Chain(c, requests), start)
    ensures start == GENESIS ||
            exists k :: 0 <= k < |requests| && !requests[k].written && start == c.hash(c.encode(Entry(c, requests, k)))
  {
    if requests != [] {
      var before, r := requests[..|requests| - 1], requests[|requests| - 1];
      assert requests == before + [r];
      ChainSnoc(c, before, r);
      if Chain(c, before) != [] {
        assert Chain(c, requests)[0] == Chain(c, before)[0];
        StartOfChain(c, before, start);
        if start != GENESIS {
          var k :| 0 <= k < |before| && !before[k].written && start == c.hash(c.encode(Entry(c, before, k)));
          EntryOfPrefix(c, before, r, k);
          assert !requests[k].written;
        }
      } else {
        EmptyIffNothingWritten(c, before);
        EntryLinks(c, requests, |before|);
        assert requests[..|before|] == before;
        if before != [] {
          assert requests[|before| - 1] == before[|before| - 1] && before[|before| - 1] in before;
        }
      }
    }
  }

  /** With restarts and failed writes together: the file passes as one chain if and only if no process wrote
      after a failure of its own and at most one process wrote at all. */
  lemma RestartsAndFailures(c: Codec, sessions: seq<seq<Request>>)
    requires OneLineJson(c) && InjectiveHash(c) && GenesisIsNoHash(c)
    requires FailuresApart(sessions)
    ensures Passes(c, Lines(Sessions(c, sessions)), GENESIS) <==>
            AtMostOneWrote(sessions) && forall i :: 0 <= i < |sessions| ==> FailuresLast(sessions[i])
  {
    RestartsConcatenateChains(c, sessions);
    forall i, j, l, start | 0 <= i < j < |sessions| && l in Chain(c, sessions[i]) &&
                            StartsFrom(c, Chain(c, sessions[j]), start)
      ensures start != c.hash(l)
    {
      StartIsNoLine(c, sessions, i, j, l, start);
    }
    OneChainIff(c, sessions);
    forall i | 0 <= i < |sessions|
      ensures Passes(c, Chain(c, sessions[i]), GENESIS) <==> FailuresLast(sessions[i])
    {
      ChainPassesIffFailuresLast(c, sessions[i]);
    }
  }

  lemma StartIsNoLine(c: Codec, sessions: seq<seq<Request>>, i: nat, j: nat, l: string, start: string)
    requires OneLineJson(c) && InjectiveHash(c) && GenesisIsNoHash(c)
    requires FailuresApart(sessions) && i < j < |sessions|
    requires l in Chain(c, sessions[i]) && StartsFrom(c, Chain(c, sessions[j]), start)
    ensures start != c.hash(l)
  {
    LinesAreEntries(c, sessions[i]);
    var k :| 0 <= k < |sessions[i]| && sessions[i][k].written && l == c.encode(Entry(c, sessions[i], k));
    StartOfChain(c, sessions[j], start);
    if start != GENESIS {
      var f :| 0 <= f < |sessions[j]| && !sessions[j][f].written &&
        start == c.hash(c.encode(Entry(c, sessions[j], f)));
      assert sessions[i][k] in sessions[i] && sessions[j][f] in sessions[j];
      OtherTimeOtherHash(c, Entry(c, sessions[i], k), Entry(c, sessions[j], f));
    }
  }

  lemma OtherTimeOtherHash(c: Codec, a: Event, b: Event)
    requires OneLineJson(c) && InjectiveHash(c)
    requires a.timestamp != b.timestamp
    ensures c.hash(c.encode(a)) != c.hash(c.encode(b))
  {
    assert c.decode(c.encode(a)) != c.decode(c.encode(b));
  }
}
