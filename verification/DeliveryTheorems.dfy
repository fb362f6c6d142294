/** What holds in every run of the messaging service, and what one request does when it runs alone. */
module DeliveryTheorems {
  import opened Channels
  import opened Store
  import opened Registry
  import opened Router
  import opened Delivery
  import opened DeliveryInvariant

  /** A run: the states passed through, and the steps taken between them. */
  ghost predicate IsRun(run: seq<State>, steps: seq<Step>) {
    && |run| == |steps| + 1
    && run[0] == Init()
    && forall i {:trigger steps[i]} :: 0 <= i < |steps| ==> Enabled(run[i], steps[i]) && run[i + 1] == Apply(run[i], steps[i])
  }

  lemma {:induction false} RunKeepsInv(run: seq<State>, steps: seq<Step>, n: nat)
    requires IsRun(run, steps) && n < |run|
    ensures Inv(run[n])
  {
    if n > 0 {
      RunKeepsInv(run, steps, n - 1);
      StepKeepsInv(run[n - 1], steps[n - 1]);
    }
  }

  // ---------- Delivery safety ----------

  /** Whatever was ever queued for a client is a stored message, from a sender who may use its channel,
      for a channel that the client's user may use; and no message was queued for it twice. */
  lemma DeliverySafety(run: seq<State>, steps: seq<Step>, n: nat, c: nat)
    requires IsRun(run, steps) && n < |run| && c in run[n].clients
    ensures
      var db, user, got := run[n].db, run[n].clients[c].user, run[n].clients[c].queue.Accepted();
      (forall i :: 0 <= i < |got| ==>
         && got[i].id in db.messages && db.messages[got[i].id] == got[i]
         && Authorised(db, got[i].senderId, got[i].channelId)
         && (ChannelType(db, got[i].channelId) == Ok("public") || IsMember(db, got[i].channelId, user))) &&
      (forall i, j :: 0 <= i < j < |got| ==> got[i].id != got[j].id)
  {
    RunKeepsInv(run, steps, n);
    var db, user, got := run[n].db, run[n].clients[c].user, run[n].clients[c].queue.Accepted();
    assert ClientOk(db, run[n].clients[c]);
    forall i | 0 <= i < |got|
      ensures got[i].id in db.messages && db.messages[got[i].id] == got[i]
      ensures Authorised(db, got[i].senderId, got[i].channelId)
      ensures ChannelType(db, got[i].channelId) == Ok("public") || IsMember(db, got[i].channelId, user)
    {
      assert got[i] in got;
    }
  }

  lemma StepGrows(s: State, step: Step)
    requires Enabled(s, step)
    ensures Grows(s.db, Apply(s, step).db)
  {
    if step.Run? {
      LocalGrows(s.db, s.threads[step.t], step.pick);
    }
  }

  lemma NextGrows(run: seq<State>, steps: seq<Step>, k: nat)
    requires IsRun(run, steps) && k < |steps|
    ensures Grows(run[k].db, run[k + 1].db)
  {
    StepGrows(run[k], steps[k]);
  }

  lemma GrowsTransitive(a: Db, b: Db, c: Db)
    requires Grows(a, b) && Grows(b, c)
    ensures Grows(a, c)
  {
  }

  /** Along a run channels keep their rows, and memberships and messages stay. */
  lemma {:induction false} TablesGrow(run: seq<State>, steps: seq<Step>, i: nat, j: nat)
    requires IsRun(run, steps) && i <= j < |run|
    ensures Grows(run[i].db, run[j].db)
    decreases j
  {
    if i < j {
      TablesGrow(run, steps, i, j - 1);
      NextGrows(run, steps, j - 1);
      GrowsTransitive(run[i].db, run[j - 1].db, run[j].db);
    }
  }

  /** A broadcast never meets a closed queue, and a queue is only closed while it is open: a client that
      is disconnected again is not listed any more. */
  lemma NoSendOnClosed(run: seq<State>, steps: seq<Step>, n: nat)
    requires IsRun(run, steps) && n < |run|
    ensures forall t :: t in run[n].threads && run[n].threads[t].Delivering? ==>
              forall c :: c in run[n].threads[t].todo ==>
                c in run[n].clients && run[n].clients[c].queue.open
    ensures forall c :: c in run[n].clients ==>
              (c in Lookup(run[n].reg, run[n].clients[c].user) <==> run[n].clients[c].queue.open)
  {
    RunKeepsInv(run, steps, n);
    forall t | t in run[n].threads && run[n].threads[t].Delivering?
      ensures forall c :: c in run[n].threads[t].todo ==> c in run[n].clients && run[n].clients[c].queue.open
    {
      assert ThreadOk(run[n].db, run[n].clients, run[n].threads[t]);
    }
  }

  // ---------- Every receiver is served ----------

  /** Between steps i and n, the request t found the queue of the client full at the client's turn. */
  ghost predicate FoundFull(run: seq<State>, steps: seq<Step>, i: nat, n: nat, t: nat, c: nat)
    requires IsRun(run, steps) && n < |run|
  {
    exists k :: i < k < n && steps[k] == Deliver(t) && run[k].threads[t].todo[0] == c &&
                |run[k].clients[c].queue.buf| >= 256
  }

  /** The client has the message in its queue or has read it, or there was no room for it. */
  ghost predicate Served(run: seq<State>, steps: seq<Step>, i: nat, n: nat, t: nat, c: nat, m: Message)
    requires IsRun(run, steps) && n < |run|
  {
    (c in run[n].clients && m in run[n].clients[c].queue.Accepted()) || FoundFull(run, steps, i, n, t, c)
  }

  lemma AcceptedGrows(s: State, step: Step, c: nat)
    requires Enabled(s, step) && c in s.clients
    ensures c in Apply(s, step).clients
    ensures forall m :: m in s.clients[c].queue.Accepted() ==> m in Apply(s, step).clients[c].queue.Accepted()
  {
    match step
    case Deliver(t) =>
      OfferedAccepted(s.clients[c].queue, s.threads[t].m);
    case ReadQueue(d) =>
      var q := s.clients[d].queue;
      assert q.taken + [q.buf[0]] + q.buf[1..] == q.taken + q.buf;
    case _ =>
  }

  lemma ServedStays(run: seq<State>, steps: seq<Step>, i: nat, n: nat, t: nat, c: nat, m: Message)
    requires IsRun(run, steps) && n + 1 < |run|
    requires Served(run, steps, i, n, t, c, m)
    ensures Served(run, steps, i, n + 1, t, c, m)
  {
    if FoundFull(run, steps, i, n, t, c) {
      var k :| i < k < n && steps[k] == Deliver(t) && run[k].threads[t].todo[0] == c &&
               |run[k].clients[c].queue.buf| >= 256;
      assert FoundFull(run, steps, i, n + 1, t, c);
    } else {
      AcceptedGrows(run[n], steps[n], c);
    }
  }

  lemma TurnServes(run: seq<State>, steps: seq<Step>, i: nat, n: nat, t: nat)
    requires IsRun(run, steps) && i < n && n + 1 < |run|
    requires steps[n] == Deliver(t)
    ensures
      Served(run, steps, i, n + 1, t, run[n].threads[t].todo[0], run[n].threads[t].m)
  {
    var c, m := run[n].threads[t].todo[0], run[n].threads[t].m;
    var q := run[n].clients[c].queue;
    if |q.buf| < SEND_CAPACITY {
      assert Offered(q, m).buf[|q.buf|] == m;
      assert m in run[n + 1].clients[c].queue.Accepted();
    } else {
      assert FoundFull(run, steps, i, n + 1, t, c);
    }
  }

  /** How a step moves a request that is delivering, or done with it. */
  lemma DeliveringMoves(s: State, step: Step, t: nat)
    requires Enabled(s, step) && t in s.threads
    requires s.threads[t].Delivering? || s.threads[t].Done?
    ensures t in Apply(s, step).threads
    ensures
      var was, now := s.threads[t], Apply(s, step).threads[t];
      || now == was
      || (step == Deliver(t) && was.Delivering? && was.todo != [] && now == Delivering(was.m, was.todo[1..]))
      || (step == Finish(t) && was.Delivering? && was.todo == [] && now == Done(Ok(was.m.id)))
  {
  }

  /** A request that took the read lock at step i: it still delivers that message, or is done with it. */
  ghost predicate Serving(pc: Pc, m: Message) {
    (pc.Delivering? && pc.m == m) || pc == Done(Ok(m.id))
  }

  predicate StillDue(pc: Pc, c: nat) {
    pc.Delivering? && c in pc.todo
  }

  /** Once a request has taken the read lock (step i), each client that was then a receiver is still to be
      served or is served; and when the request is done, all of them are served. */
  lemma {:induction false} ReceiversAreServed(
    run: seq<State>, steps: seq<Step>, i: nat, n: nat, t: nat, order: seq<string>)
    requires IsRun(run, steps) && i < n < |run|
    requires steps[i] == Lock(t, order)
    ensures t in run[n].threads && Serving(run[n].threads[t], run[i].threads[t].m)
    ensures forall c :: c in Receivers(run[i], run[i].threads[t].audience, order) ==>
              StillDue(run[n].threads[t], c) || Served(run, steps, i, n, t, c, run[i].threads[t].m)
    decreases n
  {
    if n == i + 1 {
      LockStarts(run[i], t, order);
      assert run[n] == Apply(run[i], steps[i]);
    } else {
      ReceiversAreServed(run, steps, i, n - 1, t, order);
      var m := run[i].threads[t].m;
      assert t in run[n].threads && Serving(run[n].threads[t], m) by {
        DeliveringMoves(run[n - 1], steps[n - 1], t);
      }
      forall c | c in Receivers(run[i], run[i].threads[t].audience, order) && !StillDue(run[n].threads[t], c)
        ensures Served(run, steps, i, n, t, c, m)
      {
        NoLongerDue(run, steps, i, n - 1, t, c, m);
      }
    }
  }

  lemma LockStarts(s: State, t: nat, order: seq<string>)
    requires Enabled(s, Lock(t, order))
    ensures
      var after := Apply(s, Lock(t, order));
      t in after.threads && Serving(after.threads[t], s.threads[t].m) &&
      forall c :: c in Receivers(s, s.threads[t].audience, order) ==> StillDue(after.threads[t], c)
  {
  }

  lemma NoLongerDue(run: seq<State>, steps: seq<Step>, i: nat, n: nat, t: nat, c: nat, m: Message)
    requires IsRun(run, steps) && i < n && n + 1 < |run|
    requires t in run[n].threads && t in run[n + 1].threads && Serving(run[n].threads[t], m)
    requires StillDue(run[n].threads[t], c) || Served(run, steps, i, n, t, c, m)
    requires !StillDue(run[n + 1].threads[t], c)
    ensures Served(run, steps, i, n + 1, t, c, m)
  {
    DeliveringMoves(run[n], steps[n], t);
    if Served(run, steps, i, n, t, c, m) {
      ServedStays(run, steps, i, n, t, c, m);
    } else {
      assert c == run[n].threads[t].todo[0];
      TurnServes(run, steps, i, n, t);
    }
  }

  // ---------- Direct messages ----------

  ghost predicate MembersAre(db: Db, channel: string, a: string, b: string) {
    forall u :: IsMember(db, channel, u) <==> u == a || u == b
  }

  /** The rows from outside that carry the channel's id leave the statement true: next to the channel they
      only repeat the pair, and without the channel they are not the pair. */
  ghost predicate Harmless(s: State, channel: string, a: string, b: string) {
    if channel in s.db.channels then forall u :: (channel, u) in s.ext ==> u == a || u == b
    else exists u :: (channel, u) in s.ext <==> !(u == a || u == b)
  }

  /** In every state: the members of the DM channel of two users are the pair once the channel is there,
      and whoever came in from outside, and nobody else. So the channel exists exactly when its members
      are exactly the pair, if and only if the rows from outside are harmless; with none they are. */
  lemma DmRowsAreThePair(run: seq<State>, steps: seq<Step>, n: nat, a: string, b: string)
    requires IsRun(run, steps) && n < |run|
    requires ColonFree(a) && ColonFree(b) && a != b
    ensures
      var s, id := run[n], DmId(a, b);
      && (forall u :: IsMember(s.db, id, u) <==> (id, u) in s.ext || (id in s.db.channels && (u == a || u == b)))
      && ((id in s.db.channels <==> MembersAre(s.db, id, a, b)) <==> Harmless(s, id, a, b))
      && ((forall u :: (id, u) !in s.ext) ==> Harmless(s, id, a, b))
  {
    RunKeepsInv(run, steps, n);
    var s, id := run[n], DmId(a, b);
    assert PairOk(s.db, s.ext, a, b);
    if id !in s.db.channels {
      assert (id, a) in s.ext || ((id, a) in s.ext <==> !(a == a || a == b));
    }
  }

  /** All callers that succeed in opening the DM of one pair, in either order, have the same channel, and
      both users may use it. */
  lemma SameDmForBoth(run: seq<State>, steps: seq<Step>, n: nat, t: nat, u: nat)
    requires IsRun(run, steps) && n < |run|
    requires t in run[n].threads && u in run[n].threads
    requires run[n].threads[t].Opened? && run[n].threads[u].Opened?
    requires
      var r, q := run[n].threads[t].r, run[n].threads[u].r;
      (r.user == q.user && r.Named() == q.Named()) || (r.user == q.Named() && r.Named() == q.user)
    ensures run[n].threads[t].channel == run[n].threads[u].channel
    ensures Authorised(run[n].db, run[n].threads[t].r.user, run[n].threads[t].channel)
    ensures Authorised(run[n].db, run[n].threads[t].r.Named(), run[n].threads[t].channel)
  {
    RunKeepsInv(run, steps, n);
    var r := run[n].threads[t].r;
    assert ThreadOk(run[n].db, run[n].clients, run[n].threads[t]);
    assert ThreadOk(run[n].db, run[n].clients, run[n].threads[u]);
    DmIdSymmetric(r.user, r.Named());
  }

  /** A request that ends in an error at a statement has changed nothing with that statement; so the
      loser of two racing inserts leaves no partial rows. */
  lemma FailedStatementLeavesNoRows(db: Db, pc: Pc, pick: Pick)
    requires IsLocal(pc)
    ensures
      var (after, next) := Local(db, pc, pick);
      next.Done? && next.result.Err? ==> after == db
  {
  }

  /** The insert of a pair's channel fails, and changes nothing, when the channel is in the tables. */
  lemma InsertFails(db: Db, r: Request, pick: Pick)
    requires DmId(r.user, r.Named()) in db.channels
    ensures Local(db, DmInsert(r), pick) == (db, Done(Err(Failed)))
  {
    InsertDmOutcome(db, DmId(r.user, r.Named()), r.user, r.Named());
  }

  predicate SamePair(r: Request, q: Request) {
    (r.user == q.user && r.Named() == q.Named()) || (r.user == q.Named() && r.Named() == q.user)
  }

  /** Of the callers past the existence check for one pair, at most one inserts: in every run, once one of
      them has succeeded (step i), each insert for that pair at any later point n, in either argument order
      and whatever ran in between, ends in an error and leaves the tables as they are. */
  lemma OneInsertWins(
    run: seq<State>, steps: seq<Step>, i: nat, n: nat, t: nat, u: nat, p1: Pick, p2: Pick, r: Request, q: Request)
    requires IsRun(run, steps) && i < n < |steps| && SamePair(r, q)
    requires steps[i] == Run(t, p1) && run[i].threads[t] == DmInsert(r) && run[i + 1].threads[t] == Found(r)
    requires steps[n] == Run(u, p2) && run[n].threads[u] == DmInsert(q)
    ensures run[n + 1].threads[u] == Done(Err(Failed)) && run[n + 1].db == run[n].db
  {
    DmIdSymmetric(r.user, r.Named());
    InsertDmOutcome(run[i].db, DmId(r.user, r.Named()), r.user, r.Named());
    assert DmId(r.user, r.Named()) in run[i + 1].db.channels;
    TablesGrow(run, steps, i + 1, n);
    InsertFails(run[n].db, q, p2);
  }

  /** A request that named a user is never refused when it is authorised on the channel it found,
      whatever ran in between. */
  lemma NamedUserIsNeverRefused(run: seq<State>, steps: seq<Step>, n: nat, t: nat, pick: Pick)
    requires IsRun(run, steps) && n < |run| && t in run[n].threads
    requires run[n].threads[t].AuthType? || run[n].threads[t].AuthMember?
    requires run[n].threads[t].peer.Some?
    ensures
      var next := Local(run[n].db, run[n].threads[t], pick).1;
      !(next.Done? && next.result.Err?)
  {
    RunKeepsInv(run, steps, n);
    assert ThreadOk(run[n].db, run[n].clients, run[n].threads[t]);
  }

  // ---------- One access relation ----------

  /** Whom a broadcast reads as its receivers is exactly whom the access check would let in. */
  lemma AudienceIsAccess(s: State, m: Message, pick: Pick, order: seq<string>, c: nat)
    requires RegistryOk(s) && c in s.clients
    requires ChannelType(s.db, m.channelId).Ok?
    requires IsMemberList(s.db, m.channelId, pick.rows)
    requires forall u :: u in order <==> u in s.reg
    ensures
      var next := Local(s.db, BcastType(m), pick).1;
      var locked := if next.BcastMembers? then Local(s.db, next, pick).1 else next;
      locked.BcastLock? &&
      (c in Receivers(s, locked.audience, order) <==>
       c in Listed(s.reg) && Authorised(s.db, s.clients[c].user, m.channelId))
  {
    var user := s.clients[c].user;
    var everyone := ChannelType(s.db, m.channelId).value == "public";
    var users := if everyone then order else pick.rows;
    ClientsOfMembers(s.reg, users, c);
    ListedUnderOwner(s.reg, UserOf(s), c);
    forall u | u in users && c in Lookup(s.reg, u) ensures u == user {
      assert UserOf(s)[c] == u;
    }
    if c in Lookup(s.reg, user) {
      assert user in s.reg;
    }
  }

  // ---------- A request that runs alone ----------

  /** Up to `fuel` statements of one request with nothing in between, stopping where it would broadcast. */
  function Solo(db: Db, pc: Pc, pick: Pick, fuel: nat): (Db, Pc)
    decreases fuel
  {
    if fuel == 0 || !IsLocal(pc) || Active(pc).Some? then (db, pc)
    else
      var (after, next) := Local(db, pc, pick);
      Solo(after, next, pick, fuel - 1)
  }

  /** The error with which a request ends. */
  predicate Fails(end: (Db, Pc), db: Db, e: Error) {
    end == (db, Done(Err(e)))
  }

  lemma SoloAccess(db: Db, r: Request, channel: string, peer: Option<string>, pick: Pick, fuel: nat)
    requires !r.goal.OpenDm? && fuel >= 3
    ensures
      var end := Solo(db, AuthType(r, channel, peer), pick, fuel);
      match Access(db, r.user, channel)
      case Err(e) => Fails(end, db, e)
      case Ok(_) =>
        if r.goal.ReadHistory? then end == (db, Done(Ok(channel)))
        else if pick.id in db.messages then Fails(end, db, Failed)
        else
          var m := NewMessage(r.body, r.user, channel, pick.id, pick.now);
          end == (db.(messages := db.messages[pick.id := m]), BcastType(m))
  {
    var next := Local(db, AuthType(r, channel, peer), pick).1;
    assert Solo(db, AuthType(r, channel, peer), pick, fuel) == Solo(db, next, pick, fuel - 1);
    if next.AuthMember? {
      var last := Local(db, next, pick).1;
      assert Solo(db, next, pick, fuel - 1) == Solo(db, last, pick, fuel - 2);
      if last.Save? {
        SoloSave(db, r, channel, pick, fuel - 2);
      }
    } else if next.Save? {
      SoloSave(db, r, channel, pick, fuel - 1);
    }
  }

  lemma SoloSave(db: Db, r: Request, channel: string, pick: Pick, fuel: nat)
    requires fuel >= 1
    ensures
      var m := NewMessage(r.body, r.user, channel, pick.id, pick.now);
      Solo(db, Save(r, channel), pick, fuel) ==
      if pick.id !in db.messages then (db.(messages := db.messages[pick.id := m]), BcastType(m))
      else (db, Done(Err(Failed)))
  {
    var (after, next) := Local(db, Save(r, channel), pick);
    assert Solo(db, Save(r, channel), pick, fuel) == Solo(after, next, pick, fuel - 1);
  }

  /** From the check for the pair's channel on: the channel is found or made, or the insert fails. */
  lemma SoloDm(db: Db, r: Request, pick: Pick, fuel: nat)
    requires fuel >= 5
    ensures
      var (target, db1) := FindOrCreateDm(db, r.user, r.Named());
      match target
      case Ok(channel) =>
        exists rest :: fuel - 2 <= rest < fuel &&
                       Solo(db, DmCheck(r), pick, fuel) == Solo(db1, Found(r), pick, rest)
      case Err(e) => Fails(Solo(db, DmCheck(r), pick, fuel), db, e)
  {
    var id := DmId(r.user, r.Named());
    if id in db.channels {
      assert Solo(db, DmCheck(r), pick, fuel) == Solo(db, Found(r), pick, fuel - 1);
    } else {
      assert Solo(db, DmCheck(r), pick, fuel) == Solo(db, DmInsert(r), pick, fuel - 1);
      var (db1, next) := Local(db, DmInsert(r), pick);
      assert Solo(db, DmInsert(r), pick, fuel - 1) == Solo(db1, next, pick, fuel - 2);
    }
  }

  /** Where a request that has resolved its target goes on. */
  lemma SoloTarget(db: Db, r: Request, pick: Pick)
    requires !r.goal.OpenDm?
    ensures
      var (target, db1) := Resolve(db, r.user, r.Named());
      match target
      case Err(e) => Fails(Solo(db, ResolveType(r), pick, 7), db1, e)
      case Ok(channel) =>
        exists peer, rest :: rest >= 3 &&
                             Solo(db, ResolveType(r), pick, 7) == Solo(db1, AuthType(r, channel, peer), pick, rest)
  {
    var named := r.Named();
    if named == "" {
    } else if ChannelType(db, named).Ok? {
      assert Solo(db, ResolveType(r), pick, 7) == Solo(db, AuthType(r, named, None), pick, 6);
    } else if ChannelType(db, named).error != Missing {
    } else {
      assert Solo(db, ResolveType(r), pick, 7) == Solo(db, ResolveUser(r), pick, 6);
      if named in db.users && named != r.user {
        assert Solo(db, ResolveUser(r), pick, 6) == Solo(db, DmCheck(r), pick, 5);
        SoloDm(db, r, pick, 5);
      }
    }
  }

  /** Run alone, a send request does to the tables what `HandleSend` of the router does, and comes to its
      broadcast with the same message or ends with the same error. */
  lemma SoloMatchesRouter(db: Db, r: Request, pick: Pick)
    requires r.goal.SendMessage?
    ensures
      var (target, db1) := Resolve(db, r.user, r.Named());
      var end := Solo(db, ResolveType(r), pick, 7);
      if target.Err? then Fails(end, db1, target.error)
      else if Access(db1, r.user, target.value).Err? then Fails(end, db1, Access(db1, r.user, target.value).error)
      else if pick.id in db1.messages then Fails(end, db1, Failed)
      else
        var m := NewMessage(r.body, r.user, target.value, pick.id, pick.now);
        end == (db1.(messages := db1.messages[pick.id := m]), BcastType(m))
  {
    SoloTarget(db, r, pick);
    var (target, db1) := Resolve(db, r.user, r.Named());
    if target.Ok? {
      var peer, rest :| rest >= 3 &&
        Solo(db, ResolveType(r), pick, 7) == Solo(db1, AuthType(r, target.value, peer), pick, rest);
      SoloAccess(db1, r, target.value, peer, pick, rest);
    }
  }

  /** Run alone, a history request is let in to its channel, or ends with the error, as `HandleHistory` says. */
  lemma SoloReadMatchesRouter(db: Db, r: Request, pick: Pick)
    requires r.goal.ReadHistory?
    ensures
      var (target, db1) := Resolve(db, r.user, r.Named());
      var end := Solo(db, ResolveType(r), pick, 7);
      if target.Err? then Fails(end, db1, target.error)
      else if Access(db1, r.user, target.value).Err? then Fails(end, db1, Access(db1, r.user, target.value).error)
      else end == (db1, Done(Ok(target.value)))
  {
    SoloTarget(db, r, pick);
    var (target, db1) := Resolve(db, r.user, r.Named());
    if target.Ok? {
      var peer, rest :| rest >= 3 &&
        Solo(db, ResolveType(r), pick, 7) == Solo(db1, AuthType(r, target.value, peer), pick, rest);
      SoloAccess(db1, r, target.value, peer, pick, rest);
    }
  }

  /** Run alone, a request to open a direct-message channel ends with the pair's channel or with an error. */
  lemma SoloOpens(db: Db, r: Request, pick: Pick)
    requires r.goal.OpenDm?
    ensures
      var end := Solo(db, ResolveUser(r), pick, 6);
      if r.Named() == "" || r.Named() !in db.users then Fails(end, db, Missing)
      else if r.Named() == r.user then Fails(end, db, Forbidden)
      else
        match FindOrCreateDm(db, r.user, r.Named())
        case (Err(e), _) => Fails(end, db, e)
        case (Ok(channel), db1) => end == (db1, Opened(r, channel))
  {
    if r.Named() != "" && r.Named() in db.users && r.Named() != r.user {
      assert Solo(db, ResolveUser(r), pick, 6) == Solo(db, DmCheck(r), pick, 5);
      SoloDm(db, r, pick, 5);
    }
  }
}
