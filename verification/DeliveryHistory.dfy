/** Where the messages and the listed connections of the messaging service come from, over whole runs. */
module DeliveryHistory {
  import opened Channels
  import opened Store
  import opened Registry
  import opened Router
  import opened Delivery
  import opened DeliveryTheorems

  // ---------- Messages come from requests ----------

  /** Step i started a send request and step j ran one of its statements; the message says who sent it,
      what the request held, and the id and the clock reading drawn at step j. */
  ghost predicate SentBy(steps: seq<Step>, i: nat, j: nat, m: Message) {
    && i < j < |steps| && steps[i].Start? && steps[j].Run? && steps[j].t == steps[i].t
    && steps[i].r.goal == SendMessage
    && m.senderId == steps[i].r.user
    && (m.channelId == steps[i].r.body.channelId || m.channelId == DmId(steps[i].r.user, steps[i].r.body.channelId))
    && m.kind == steps[i].r.body.kind && m.content == steps[i].r.body.content
    && m.nonce == steps[i].r.body.nonce && m.signature == steps[i].r.body.signature
    && m.id == steps[j].pick.id && m.timestamp == steps[j].pick.now
  }

  ghost predicate WasSent(steps: seq<Step>, n: nat, m: Message) {
    exists i, j :: 0 <= i < j < n && SentBy(steps, i, j, m)
  }

  ghost predicate WasStarted(steps: seq<Step>, n: nat, t: nat, r: Request) {
    exists i :: 0 <= i < n && i < |steps| && steps[i] == Start(t, r)
  }

  /** A request that has not stored its message yet, and the channel that it has found. */
  predicate Holds(pc: Pc) {
    pc.ResolveType? || pc.ResolveUser? || pc.DmCheck? || pc.DmInsert? || pc.AuthType? || pc.AuthMember? || pc.Save?
  }

  predicate IsTarget(r: Request, channel: string) {
    channel == r.Named() || channel == DmId(r.user, r.Named())
  }

  ghost predicate ComesFromStart(steps: seq<Step>, n: nat, t: nat, pc: Pc) {
    && (Holds(pc) ==> WasStarted(steps, n, t, pc.r))
    && (pc.AuthType? || pc.AuthMember? || pc.Save? ==> IsTarget(pc.r, pc.channel))
    && (pc.Save? ==> pc.r.goal.SendMessage?)
  }

  ghost predicate Accounted(steps: seq<Step>, n: nat, s: State) {
    && (forall t :: t in s.threads ==> ComesFromStart(steps, n, t, s.threads[t]))
    && forall id :: id in s.db.messages ==> WasSent(steps, n, s.db.messages[id])
  }

  lemma StartedStays(steps: seq<Step>, n: nat, t: nat, r: Request)
    requires WasStarted(steps, n, t, r)
    ensures WasStarted(steps, n + 1, t, r)
  {
    var i :| 0 <= i < n && i < |steps| && steps[i] == Start(t, r);
    assert steps[i] == Start(t, r);
  }

  lemma SentStays(steps: seq<Step>, n: nat, m: Message)
    requires WasSent(steps, n, m)
    ensures WasSent(steps, n + 1, m)
  {
    var i, j :| 0 <= i < j < n && SentBy(steps, i, j, m);
    assert SentBy(steps, i, j, m);
  }

  /** A statement of a request keeps the request and its target. */
  lemma LocalHolds(db: Db, pc: Pc, pick: Pick)
    requires IsLocal(pc) && Holds(pc)
    requires pc.AuthType? || pc.AuthMember? || pc.Save? ==> IsTarget(pc.r, pc.channel)
    ensures
      var next := Local(db, pc, pick).1;
      && (Holds(next) ==> next.r == pc.r)
      && (next.AuthType? || next.AuthMember? || next.Save? ==> IsTarget(next.r, next.channel))
      && (next.Save? ==> next.r.goal.SendMessage?)
  {
  }

  lemma LocalMovesOn(db: Db, pc: Pc, pick: Pick)
    requires IsLocal(pc) && !Holds(pc)
    ensures !Holds(Local(db, pc, pick).1) && Local(db, pc, pick).0 == db
  {
  }

  /** Only the insert of a request puts a message in the table: its own, with the fields of its body. */
  lemma LocalStores(db: Db, pc: Pc, pick: Pick, id: string)
    requires IsLocal(pc) && id in Local(db, pc, pick).0.messages
    ensures (id in db.messages && db.messages[id] == Local(db, pc, pick).0.messages[id]) ||
            (pc.Save? &&
             Local(db, pc, pick).0.messages[id] ==
             Message(pick.id, pc.channel, pc.r.user, pick.now,
                     pc.r.body.kind, pc.r.body.content, pc.r.body.nonce, pc.r.body.signature))
  {
  }

  lemma StoredWasSent(steps: seq<Step>, n: nat, t: nat, pc: Pc, pick: Pick, m: Message)
    requires n < |steps| && steps[n] == Run(t, pick)
    requires pc.Save? && ComesFromStart(steps, n, t, pc)
    requires m == Message(pick.id, pc.channel, pc.r.user, pick.now,
                          pc.r.body.kind, pc.r.body.content, pc.r.body.nonce, pc.r.body.signature)
    ensures WasSent(steps, n + 1, m)
  {
    var i :| 0 <= i < n && i < |steps| && steps[i] == Start(t, pc.r);
    assert SentBy(steps, i, n, m);
  }

  lemma RunAccounts(steps: seq<Step>, n: nat, s: State, t: nat, pick: Pick)
    requires n < |steps| && steps[n] == Run(t, pick)
    requires Accounted(steps, n, s) && Enabled(s, Run(t, pick))
    ensures Accounted(steps, n + 1, Apply(s, Run(t, pick)))
  {
    var pc := s.threads[t];
    var after := Apply(s, Run(t, pick));
    forall u | u in after.threads ensures ComesFromStart(steps, n + 1, u, after.threads[u]) {
      if Holds(s.threads[u]) {
        StartedStays(steps, n, u, s.threads[u].r);
      }
      if u == t {
        if Holds(pc) {
          LocalHolds(s.db, pc, pick);
        } else {
          LocalMovesOn(s.db, pc, pick);
        }
      }
    }
    forall id | id in after.db.messages ensures WasSent(steps, n + 1, after.db.messages[id]) {
      LocalStores(s.db, pc, pick, id);
      if id in s.db.messages && s.db.messages[id] == after.db.messages[id] {
        SentStays(steps, n, s.db.messages[id]);
      } else {
        StoredWasSent(steps, n, t, pc, pick, after.db.messages[id]);
      }
    }
  }

  /** The other steps store nothing, and only a start makes a request. */
  lemma OtherStep(s: State, step: Step, t: nat)
    requires Enabled(s, step) && !step.Run? && t in Apply(s, step).threads
    ensures Apply(s, step).db.messages == s.db.messages
    ensures (t in s.threads && Apply(s, step).threads[t] == s.threads[t]) ||
            !Holds(Apply(s, step).threads[t]) ||
            (step.Start? && step.t == t && Apply(s, step).threads[t].r == step.r &&
             (Apply(s, step).threads[t].ResolveType? || Apply(s, step).threads[t].ResolveUser?))
  {
  }

  lemma OtherStepStoresNothing(s: State, step: Step)
    requires Enabled(s, step) && !step.Run?
    ensures Apply(s, step).db.messages == s.db.messages
  {
  }

  lemma OtherStepAccounts(steps: seq<Step>, n: nat, s: State)
    requires n < |steps| && !steps[n].Run?
    requires Accounted(steps, n, s) && Enabled(s, steps[n])
    ensures Accounted(steps, n + 1, Apply(s, steps[n]))
  {
    var after := Apply(s, steps[n]);
    OtherStepStoresNothing(s, steps[n]);
    forall t | t in after.threads ensures ComesFromStart(steps, n + 1, t, after.threads[t]) {
      OtherStep(s, steps[n], t);
      if t in s.threads && after.threads[t] == s.threads[t] && Holds(s.threads[t]) {
        StartedStays(steps, n, t, s.threads[t].r);
      }
    }
    forall id | id in after.db.messages ensures WasSent(steps, n + 1, after.db.messages[id]) {
      SentStays(steps, n, s.db.messages[id]);
    }
  }

  lemma {:induction false} RunIsAccounted(run: seq<State>, steps: seq<Step>, n: nat)
    requires IsRun(run, steps) && n < |run|
    ensures Accounted(steps, n, run[n])
  {
    if n > 0 {
      RunIsAccounted(run, steps, n - 1);
      if steps[n - 1].Run? {
        RunAccounts(steps, n - 1, run[n - 1], steps[n - 1].t, steps[n - 1].pick);
      } else {
        OtherStepAccounts(steps, n - 1, run[n - 1]);
      }
    }
  }

  /** In every state of every run, each message in the table, and so each message that was ever queued for
      a client, is one that a send request asked for: its sender started the request, its type, content,
      nonce and signature are the request's, and its channel is the named one or the pair's. */
  lemma MessagesAreRequests(run: seq<State>, steps: seq<Step>, n: nat)
    requires IsRun(run, steps) && n < |run|
    ensures forall id :: id in run[n].db.messages ==> WasSent(steps, n, run[n].db.messages[id])
    ensures forall c, m :: c in run[n].clients && m in run[n].clients[c].queue.Accepted() ==> WasSent(steps, n, m)
  {
    RunIsAccounted(run, steps, n);
    DeliveryTheorems.RunKeepsInv(run, steps, n);
    forall c, m | c in run[n].clients && m in run[n].clients[c].queue.Accepted()
      ensures WasSent(steps, n, m)
    {
      assert ClientOk(run[n].db, run[n].clients[c]);
      assert Legitimate(run[n].db, m);
    }
  }

  /** A request stores at most one message: after its insert it never comes to an insert again. */
  lemma {:induction false} StoresOnce(run: seq<State>, steps: seq<Step>, j: nat, k: nat, t: nat)
    requires IsRun(run, steps) && j < k < |run|
    requires steps[j].Run? && steps[j].t == t && run[j].threads[t].Save?
    ensures t in run[k].threads && !Holds(run[k].threads[t])
    decreases k
  {
    if k > j + 1 {
      StoresOnce(run, steps, j, k - 1, t);
      MovesOn(run[k - 1], steps[k - 1], t);
    }
  }

  lemma MovesOn(s: State, step: Step, t: nat)
    requires Enabled(s, step) && t in s.threads && !Holds(s.threads[t])
    ensures t in Apply(s, step).threads && !Holds(Apply(s, step).threads[t])
  {
    if step.Run? && step.t == t {
      LocalMovesOn(s.db, s.threads[t], step.pick);
    }
  }

  // ---------- Who is listed ----------

  ghost predicate Connected(steps: seq<Step>, n: nat, c: nat) {
    exists i :: 0 <= i < n && i < |steps| && steps[i].Connect? && steps[i].c == c
  }

  ghost predicate Disconnected(steps: seq<Step>, n: nat, c: nat) {
    exists i :: 0 <= i < n && i < |steps| && steps[i].Disconnect? && steps[i].c == c
  }

  lemma NextConnected(steps: seq<Step>, n: nat, c: nat)
    requires n < |steps|
    ensures Connected(steps, n + 1, c) <==> Connected(steps, n, c) || (steps[n].Connect? && steps[n].c == c)
    ensures Disconnected(steps, n + 1, c) <==> Disconnected(steps, n, c) || (steps[n].Disconnect? && steps[n].c == c)
  {
    if Connected(steps, n, c) {
      var i :| 0 <= i < n && i < |steps| && steps[i].Connect? && steps[i].c == c;
      assert steps[i].Connect?;
    }
    if Disconnected(steps, n, c) {
      var i :| 0 <= i < n && i < |steps| && steps[i].Disconnect? && steps[i].c == c;
      assert steps[i].Disconnect?;
    }
  }

  /** How a step changes who is known and who is listed. */
  lemma StepLists(s: State, step: Step, c: nat)
    requires Inv(s) && Enabled(s, step)
    ensures c in Apply(s, step).clients <==> c in s.clients || (step.Connect? && step.c == c)
    ensures c in Listed(Apply(s, step).reg) <==>
            (step.Connect? && step.c == c) || (c in Listed(s.reg) && !(step.Disconnect? && step.c == c))
  {
    if step.Connect? {
      assert Listed(Apply(s, step).reg) == Listed(s.reg) + {step.c} by {
        AddKeeps(s.reg, UserOf(s), step.user, step.c);
      }
    } else if step.Disconnect? {
      assert Listed(Apply(s, step).reg) == Listed(s.reg) - {step.c} by {
        RemoveKeeps(s.reg, UserOf(s), s.clients[step.c].user, step.c);
      }
    }
  }

  lemma {:induction false} ConnectedAreListed(run: seq<State>, steps: seq<Step>, n: nat, c: nat)
    requires IsRun(run, steps) && n < |run|
    ensures c in run[n].clients <==> Connected(steps, n, c)
    ensures c in Listed(run[n].reg) <==> Connected(steps, n, c) && !Disconnected(steps, n, c)
    ensures Disconnected(steps, n, c) ==> Connected(steps, n, c)
  {
    if n > 0 {
      ConnectedAreListed(run, steps, n - 1, c);
      NextConnected(steps, n - 1, c);
      DeliveryTheorems.RunKeepsInv(run, steps, n - 1);
      StepLists(run[n - 1], steps[n - 1], c);
    }
  }

  /** In every state of every run a connection is listed, and its queue open, if and only if it was
      registered before and not unregistered since; so unregistering closes and removes it for good. */
  lemma ListedIffConnected(run: seq<State>, steps: seq<Step>, n: nat, c: nat)
    requires IsRun(run, steps) && n < |run|
    ensures c in Listed(run[n].reg) <==> Connected(steps, n, c) && !Disconnected(steps, n, c)
    ensures c in run[n].clients ==>
              (run[n].clients[c].queue.open <==> !Disconnected(steps, n, c))
  {
    ConnectedAreListed(run, steps, n, c);
    DeliveryTheorems.RunKeepsInv(run, steps, n);
    if c in run[n].clients {
      ListedUnderOwner(run[n].reg, UserOf(run[n]), c);
    }
  }

  lemma StepKeepsUser(s: State, step: Step, c: nat)
    requires Enabled(s, step) && c in s.clients
    ensures c in Apply(s, step).clients && Apply(s, step).clients[c].user == s.clients[c].user
  {
  }

  /** A connection belongs to the user that it was registered for, and stands in that user's list alone. */
  lemma {:induction false} ConnectionKeepsUser(run: seq<State>, steps: seq<Step>, i: nat, n: nat)
    requires IsRun(run, steps) && i < n < |run| && steps[i].Connect?
    ensures steps[i].c in run[n].clients && run[n].clients[steps[i].c].user == steps[i].user
    ensures forall u :: steps[i].c in Lookup(run[n].reg, u) ==> u == steps[i].user
    decreases n
  {
    if n > i + 1 {
      ConnectionKeepsUser(run, steps, i, n - 1);
      StepKeepsUser(run[n - 1], steps[n - 1], steps[i].c);
    }
    DeliveryTheorems.RunKeepsInv(run, steps, n);
    forall u | steps[i].c in Lookup(run[n].reg, u) ensures u == steps[i].user {
      assert UserOf(run[n])[steps[i].c] == u;
    }
  }

  function Reads(steps: seq<Step>, c: nat): nat {
    if steps == [] then 0
    else Reads(steps[..|steps| - 1], c) + if steps[|steps| - 1] == ReadQueue(c) then 1 else 0
  }

  lemma StepReads(s: State, step: Step, c: nat)
    requires Enabled(s, step) && c in s.clients
    ensures c in Apply(s, step).clients
    ensures |Apply(s, step).clients[c].queue.taken| ==
            |s.clients[c].queue.taken| + if step == ReadQueue(c) then 1 else 0
  {
  }

  /** Each read takes one message, so that what a client has received is the beginning, one message for each
      read, of what was put in its queue. */
  lemma {:induction false} OneMessageARead(run: seq<State>, steps: seq<Step>, n: nat, c: nat)
    requires IsRun(run, steps) && n < |run|
    ensures c in run[n].clients ==> |run[n].clients[c].queue.taken| == Reads(steps[..n], c)
    ensures c !in run[n].clients ==> Reads(steps[..n], c) == 0
    ensures c in run[n].clients ==> run[n].clients[c].queue.taken <= run[n].clients[c].queue.Accepted()
  {
    if n > 0 {
      OneMessageARead(run, steps, n - 1, c);
      assert steps[..n][..n - 1] == steps[..n - 1];
      if c in run[n - 1].clients {
        StepReads(run[n - 1], steps[n - 1], c);
      }
    }
  }

  // ---------- Where the other rows come from ----------

  ghost predicate Did(steps: seq<Step>, n: nat, step: Step) {
    exists i :: 0 <= i < n && i < |steps| && steps[i] == step
  }

  lemma DidNext(steps: seq<Step>, n: nat, step: Step)
    requires n < |steps|
    ensures Did(steps, n + 1, step) <==> Did(steps, n, step) || steps[n] == step
  {
    if Did(steps, n, step) {
      var i :| 0 <= i < n && i < |steps| && steps[i] == step;
      assert steps[i] == step;
    }
  }

  /** The row of a channel that the service opened for two users. */
  ghost predicate IsOpened(channel: string, row: ChannelRow) {
    row == ChannelRow(Some("Direct Message"), Some("dm")) && exists a, b :: channel == DmId(a, b)
  }

  ghost predicate IsOwnMember(channel: string, user: string) {
    exists other :: channel == DmId(user, other)
  }

  /** How one step adds users, rows from outside, channels and members. */
  lemma StepAdds(s: State, step: Step)
    requires Enabled(s, step)
    ensures Apply(s, step).db.users == s.db.users + if step.AddUser? then {step.user} else {}
    ensures Apply(s, step).ext == s.ext + if step.AddMember? then {(step.channel, step.user)} else {}
    ensures forall c :: c in Apply(s, step).db.channels ==>
              || (c in s.db.channels && Apply(s, step).db.channels[c] == s.db.channels[c])
              || step == AddChannel(c, Apply(s, step).db.channels[c])
              || IsOpened(c, Apply(s, step).db.channels[c])
    ensures forall c, u :: (c, u) in Apply(s, step).db.members ==>
              (c, u) in s.db.members || step == AddMember(c, u) || IsOwnMember(c, u)
  {
    if step.Run? && s.threads[step.t].DmInsert? {
      var r := s.threads[step.t].r;
      InsertDmOutcome(s.db, DmId(r.user, r.Named()), r.user, r.Named());
      DmIdSymmetric(r.user, r.Named());
      assert IsOwnMember(DmId(r.user, r.Named()), r.user);
      assert IsOwnMember(DmId(r.user, r.Named()), r.Named());
    }
  }

  /** In every state of every run the users are those that were added; a channel row was added from outside
      or opened by this service for a pair; and a member row was added from outside or stands for one of the
      pair of such a channel. */
  lemma {:induction false} RowsHaveOrigin(run: seq<State>, steps: seq<Step>, n: nat)
    requires IsRun(run, steps) && n < |run|
    ensures forall u :: u in run[n].db.users <==> Did(steps, n, AddUser(u))
    ensures forall c, u :: (c, u) in run[n].ext <==> Did(steps, n, AddMember(c, u))
    ensures forall c :: c in run[n].db.channels ==>
              Did(steps, n, AddChannel(c, run[n].db.channels[c])) || IsOpened(c, run[n].db.channels[c])
    ensures forall c, u :: (c, u) in run[n].db.members ==> (c, u) in run[n].ext || IsOwnMember(c, u)
  {
    if n > 0 {
      var s, step := run[n - 1], steps[n - 1];
      RowsHaveOrigin(run, steps, n - 1);
      StepAdds(s, step);
      forall u ensures u in run[n].db.users <==> Did(steps, n, AddUser(u)) {
        DidNext(steps, n - 1, AddUser(u));
      }
      forall c, u ensures (c, u) in run[n].ext <==> Did(steps, n, AddMember(c, u)) {
        DidNext(steps, n - 1, AddMember(c, u));
      }
      forall c | c in run[n].db.channels
        ensures Did(steps, n, AddChannel(c, run[n].db.channels[c])) || IsOpened(c, run[n].db.channels[c])
      {
        DidNext(steps, n - 1, AddChannel(c, run[n].db.channels[c]));
      }
    }
  }

  /** And a row that was added from outside is there. */
  lemma OutsideRowsArrive(run: seq<State>, steps: seq<Step>, i: nat, n: nat)
    requires IsRun(run, steps) && i < n < |run|
    ensures steps[i].AddMember? ==> IsMember(run[n].db, steps[i].channel, steps[i].user)
    ensures steps[i].AddChannel? ==>
              steps[i].channel in run[n].db.channels && run[n].db.channels[steps[i].channel] == steps[i].row
  {
    TablesGrow(run, steps, i + 1, n);
  }

  // ---------- How requests end ----------

  /** A result is final. */
  lemma {:induction false} ResultIsFinal(run: seq<State>, steps: seq<Step>, i: nat, j: nat, t: nat)
    requires IsRun(run, steps) && i <= j < |run|
    requires t in run[i].threads && run[i].threads[t].Done?
    ensures t in run[j].threads && run[j].threads[t] == run[i].threads[t]
    decreases j
  {
    if i < j {
      ResultIsFinal(run, steps, i, j - 1, t);
      DeliveringMoves(run[j - 1], steps[j - 1], t);
    }
  }

  /** A statement that the database fails ends its request with an error for good, and changes no table. */
  lemma FailureEndsRequest(run: seq<State>, steps: seq<Step>, i: nat, j: nat)
    requires IsRun(run, steps) && i < j < |run| && steps[i].Fail?
    ensures run[i + 1].db == run[i].db
    ensures steps[i].t in run[j].threads && run[j].threads[steps[i].t] == Done(Err(Failed))
  {
    ResultIsFinal(run, steps, i + 1, j, steps[i].t);
  }
}
