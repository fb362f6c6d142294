/** Every step of `Delivery` keeps its invariant. */
module DeliveryInvariant {
  import opened Channels
  import opened Store
  import opened Registry
  import opened Router
  import opened Delivery

  // ---------- Growing tables ----------

  lemma GrowKeepsClient(before: Db, after: Db, k: Connection)
    requires Grows(before, after) && ClientOk(before, k)
    ensures ClientOk(after, k)
  {
    forall m | m in k.queue.Accepted()
      ensures Legitimate(after, m) && Authorised(after, k.user, m.channelId)
    {
      AccessGrows(before, after, m.senderId, m.channelId);
      AccessGrows(before, after, k.user, m.channelId);
    }
  }

  lemma GrowKeepsThread(before: Db, after: Db, clients: map<nat, Connection>, pc: Pc)
    requires Grows(before, after) && ThreadOk(before, clients, pc)
    ensures ThreadOk(after, clients, pc)
  {
  }

  // ---------- One statement of a request ----------

  lemma LocalGrows(db: Db, pc: Pc, pick: Pick)
    requires IsLocal(pc)
    ensures Grows(db, Local(db, pc, pick).0)
  {
    if pc.DmInsert? {
      InsertDmOutcome(db, DmId(pc.r.user, pc.r.Named()), pc.r.user, pc.r.Named());
    }
  }

  lemma LocalKeepsDm(s: State, pc: Pc, pick: Pick)
    requires DmOk(s) && IsLocal(pc) && ThreadOk(s.db, s.clients, pc)
    ensures DmOk(s.(db := Local(s.db, pc, pick).0))
  {
    var after := Local(s.db, pc, pick).0;
    if pc.DmInsert? {
      var u, v := pc.r.user, pc.r.Named();
      InsertDmOutcome(s.db, DmId(u, v), u, v);
      forall a, b | ColonFree(a) && ColonFree(b) && a != b
        ensures PairOk(after, s.ext, a, b)
      {
        assert PairOk(s.db, s.ext, a, b);
        if DmId(a, b) == DmId(u, v) {
          DmIdInjective(a, b, u, v);
        }
      }
    } else {
      assert after.channels == s.db.channels && after.members == s.db.members && after.users == s.db.users;
      forall a, b | ColonFree(a) && ColonFree(b) && a != b
        ensures PairOk(after, s.ext, a, b)
      {
        assert PairOk(s.db, s.ext, a, b);
      }
    }
  }

  lemma LocalKeepsThread(s: State, pc: Pc, pick: Pick)
    requires DmOk(s) && IsLocal(pc) && ThreadOk(s.db, s.clients, pc)
    requires pc.BcastMembers? ==> IsMemberList(s.db, pc.m.channelId, pick.rows)
    ensures ThreadOk(Local(s.db, pc, pick).0, s.clients, Local(s.db, pc, pick).1)
  {
    var (after, next) := Local(s.db, pc, pick);
    match pc
    case DmCheck(r) =>
      assert PairOk(s.db, s.ext, r.user, r.Named());
    case DmInsert(r) =>
      InsertDmOutcome(s.db, DmId(r.user, r.Named()), r.user, r.Named());
    case BcastMembers(m) =>
      forall u | u in pick.rows ensures Authorised(s.db, u, m.channelId) {
        assert IsMember(s.db, m.channelId, u);
      }
    case _ =>
  }

  /** A message becomes active when it is stored, under an id that no stored message has. */
  lemma LocalActive(db: Db, pc: Pc, pick: Pick)
    requires IsLocal(pc)
    ensures
      var next := Local(db, pc, pick).1;
      Active(next).None? || Active(next) == Active(pc) || Active(next).value.id !in db.messages
    ensures !Local(db, pc, pick).1.Delivering?
  {
  }

  lemma RunKeepsInv(s: State, t: nat, pick: Pick)
    requires Inv(s) && Enabled(s, Run(t, pick))
    ensures Inv(Apply(s, Run(t, pick)))
  {
    var pc := s.threads[t];
    var (db, next) := Local(s.db, pc, pick);
    var after := Apply(s, Run(t, pick));
    LocalGrows(s.db, pc, pick);
    LocalKeepsDm(s, pc, pick);
    LocalActive(s.db, pc, pick);
    forall c | c in s.clients ensures ClientOk(db, s.clients[c]) {
      GrowKeepsClient(s.db, db, s.clients[c]);
    }
    forall u | u in after.threads ensures ThreadOk(db, s.clients, after.threads[u]) {
      if u == t {
        LocalKeepsThread(s, pc, pick);
      } else {
        GrowKeepsThread(s.db, db, s.clients, s.threads[u]);
      }
    }
    assert UserOf(after) == UserOf(s);
    RunKeepsMessagesApart(s, t, pick);
  }

  lemma RunKeepsMessagesApart(s: State, t: nat, pick: Pick)
    requires Inv(s) && Enabled(s, Run(t, pick))
    ensures ActiveDistinct(Apply(s, Run(t, pick)))
    ensures AwaitedUnseen(Apply(s, Run(t, pick)))
  {
    var pc := s.threads[t];
    var next := Local(s.db, pc, pick).1;
    LocalActive(s.db, pc, pick);
    if Active(next).Some? && Active(next) != Active(pc) {
      StoredIdIsNew(s, Active(next).value);
    } else {
      assert forall c :: Awaits(next, c) ==> Awaits(pc, c);
    }
  }

  /** An id that no stored message has is no active message's id, and no client has seen it. */
  lemma StoredIdIsNew(s: State, m: Message)
    requires ThreadsOk(s) && ClientsOk(s)
    requires m.id !in s.db.messages
    ensures forall u :: u in s.threads && Active(s.threads[u]).Some? ==> Active(s.threads[u]).value.id != m.id
    ensures forall c :: c in s.clients ==> Unseen(s.clients[c], m)
  {
    forall u | u in s.threads && Active(s.threads[u]).Some?
      ensures Active(s.threads[u]).value.id != m.id
    {
      assert ThreadOk(s.db, s.clients, s.threads[u]);
    }
    forall c | c in s.clients ensures Unseen(s.clients[c], m) {
      assert ClientOk(s.db, s.clients[c]);
    }
  }

  // ---------- Requests that start, fail or finish ----------

  /** Moving one request to a place where it holds no message. */
  lemma QuietMoveKeepsInv(s: State, t: nat, pc: Pc)
    requires Inv(s)
    requires Active(pc).None? && ThreadOk(s.db, s.clients, pc)
    ensures Inv(s.(threads := s.threads[t := pc]))
  {
    assert UserOf(s.(threads := s.threads[t := pc])) == UserOf(s);
  }

  // ---------- Broadcasts ----------

  lemma ReceiversOk(s: State, m: Message, audience: Audience, order: seq<string>)
    requires RegistryOk(s) && ThreadOk(s.db, s.clients, BcastLock(m, audience))
    requires NoDuplicates(order)
    ensures ThreadOk(s.db, s.clients, Delivering(m, Receivers(s, audience, order)))
  {
    var users := if audience.Everyone? then order else audience.users;
    var todo := Receivers(s, audience, order);
    ClientsOfDistinct(s.reg, UserOf(s), users);
    forall c | c in todo
      ensures c in s.clients && s.clients[c].queue.open && Authorised(s.db, s.clients[c].user, m.channelId)
    {
      ClientsOfMembers(s.reg, users, c);
      var u :| u in users && c in Lookup(s.reg, u);
      assert UserOf(s)[c] == u;
    }
  }

  lemma LockKeepsUnseen(s: State, t: nat, order: seq<string>)
    requires ActiveDistinct(s) && AwaitedUnseen(s) && Enabled(s, Lock(t, order))
    ensures ActiveDistinct(Apply(s, Lock(t, order)))
    ensures AwaitedUnseen(Apply(s, Lock(t, order)))
  {
    assert forall c :: c in s.clients ==> Awaits(s.threads[t], c);
  }

  lemma LockKeepsInv(s: State, t: nat, order: seq<string>)
    requires Inv(s) && Enabled(s, Lock(t, order))
    ensures Inv(Apply(s, Lock(t, order)))
  {
    var after := Apply(s, Lock(t, order));
    assert ThreadOk(s.db, s.clients, s.threads[t]);
    ReceiversOk(s, s.threads[t].m, s.threads[t].audience, order);
    assert UserOf(after) == UserOf(s);
    LockKeepsUnseen(s, t, order);
  }

  lemma OfferedAccepted(q: Queue<Message>, m: Message)
    ensures Offered(q, m).Accepted() == q.Accepted() || Offered(q, m).Accepted() == q.Accepted() + [m]
    ensures Offered(q, m).open == q.open
  {
    assert q.taken + (q.buf + [m]) == q.taken + q.buf + [m];
  }

  /** The receiver of a message it had not seen is still in order. */
  lemma OfferKeepsClient(db: Db, k: Connection, m: Message)
    requires ClientOk(db, k) && Legitimate(db, m) && Authorised(db, k.user, m.channelId) && Unseen(k, m)
    ensures ClientOk(db, WithQueue(k, Offered(k.queue, m)))
  {
    OfferedAccepted(k.queue, m);
  }

  /** Queues may hold something else, but users and open ends are as they were. */
  ghost predicate SameEnds(before: map<nat, Connection>, after: map<nat, Connection>) {
    && before.Keys == after.Keys
    && forall c :: c in before ==>
         after[c].user == before[c].user && after[c].queue.open == before[c].queue.open
  }

  lemma SameEndsKeep(s: State, clients: map<nat, Connection>)
    requires RegistryOk(s) && ThreadsOk(s) && SameEnds(s.clients, clients)
    ensures RegistryOk(s.(clients := clients)) && ThreadsOk(s.(clients := clients))
  {
    assert UserOf(s.(clients := clients)) == UserOf(s);
    forall t | t in s.threads ensures ThreadOk(s.db, clients, s.threads[t]) {
      assert ThreadOk(s.db, s.clients, s.threads[t]);
    }
  }

  lemma DeliverKeepsClients(s: State, t: nat)
    requires ClientsOk(s) && ThreadsOk(s) && AwaitedUnseen(s) && Enabled(s, Deliver(t))
    ensures ClientsOk(Apply(s, Deliver(t))) && SameEnds(s.clients, Apply(s, Deliver(t)).clients)
  {
    var pc := s.threads[t];
    var c := pc.todo[0];
    assert ThreadOk(s.db, s.clients, pc);
    assert c in pc.todo && Awaits(pc, c);
    OfferKeepsClient(s.db, s.clients[c], pc.m);
    OfferedAccepted(s.clients[c].queue, pc.m);
  }

  lemma DeliverKeepsThreads(s: State, t: nat)
    requires RegistryOk(s) && ThreadsOk(s) && Enabled(s, Deliver(t))
    requires SameEnds(s.clients, Apply(s, Deliver(t)).clients)
    ensures RegistryOk(Apply(s, Deliver(t))) && ThreadsOk(Apply(s, Deliver(t)))
  {
    var after := Apply(s, Deliver(t));
    var pc := s.threads[t];
    SameEndsKeep(s, after.clients);
    assert ThreadOk(s.db, after.clients, pc);
    assert ThreadOk(s.db, after.clients, Delivering(pc.m, pc.todo[1..]));
    assert UserOf(after) == UserOf(s.(clients := after.clients));
  }

  lemma DeliverKeepsInv(s: State, t: nat)
    requires Inv(s) && Enabled(s, Deliver(t))
    ensures Inv(Apply(s, Deliver(t)))
  {
    DeliverKeepsClients(s, t);
    DeliverKeepsThreads(s, t);
    DeliverKeepsActive(s, t);
    DeliverKeepsUnseen(s, t);
  }

  lemma DeliverKeepsActive(s: State, t: nat)
    requires ActiveDistinct(s) && Enabled(s, Deliver(t))
    ensures ActiveDistinct(Apply(s, Deliver(t)))
    ensures Apply(s, Deliver(t)).threads.Keys == s.threads.Keys
    ensures forall u :: u in s.threads ==> Active(Apply(s, Deliver(t)).threads[u]) == Active(s.threads[u])
  {
  }

  lemma DeliverKeepsUnseen(s: State, t: nat)
    requires ThreadsOk(s) && ActiveDistinct(s) && AwaitedUnseen(s) && Enabled(s, Deliver(t))
    ensures AwaitedUnseen(Apply(s, Deliver(t)))
  {
    assert ThreadOk(s.db, s.clients, s.threads[t]);
    forall u, d | u in s.threads && d in s.clients && Awaits(Apply(s, Deliver(t)).threads[u], d)
      ensures Unseen(Apply(s, Deliver(t)).clients[d], Active(Apply(s, Deliver(t)).threads[u]).value)
    {
      StillUnseen(s, t, u, d);
    }
  }

  lemma StillUnseen(s: State, t: nat, u: nat, d: nat)
    requires ActiveDistinct(s) && AwaitedUnseen(s) && Enabled(s, Deliver(t))
    requires NoDuplicates(s.threads[t].todo)
    requires u in s.threads && d in s.clients && Awaits(Apply(s, Deliver(t)).threads[u], d)
    ensures Unseen(Apply(s, Deliver(t)).clients[d], Active(Apply(s, Deliver(t)).threads[u]).value)
  {
    var pc := s.threads[t];
    var c := pc.todo[0];
    assert Awaits(s.threads[u], d) && Unseen(s.clients[d], Active(s.threads[u]).value);
    assert c !in pc.todo[1..];
    OfferedAccepted(s.clients[c].queue, pc.m);
  }

  // ---------- Connections ----------

  lemma NobodyDeliveringIgnoresClients(db: Db, before: map<nat, Connection>, after: map<nat, Connection>, pc: Pc)
    requires ThreadOk(db, before, pc) && !pc.Delivering?
    ensures ThreadOk(db, after, pc)
  {
  }

  lemma ConnectKeepsRegistry(s: State, c: nat, user: string)
    requires RegistryOk(s) && Enabled(s, Connect(c, user))
    ensures RegistryOk(Apply(s, Connect(c, user)))
  {
    var after := Apply(s, Connect(c, user));
    AddKeeps(s.reg, UserOf(s), user, c);
    assert UserOf(after) == UserOf(s)[c := user];
    forall d | d in s.clients && d != c
      ensures d in Lookup(after.reg, s.clients[d].user) <==> d in Lookup(s.reg, s.clients[d].user)
    {
    }
  }

  /** A new client has seen nothing. */
  lemma ConnectKeepsInv(s: State, c: nat, user: string)
    requires Inv(s) && Enabled(s, Connect(c, user))
    ensures Inv(Apply(s, Connect(c, user)))
  {
    var after := Apply(s, Connect(c, user));
    ConnectKeepsRegistry(s, c, user);
    assert after.clients[c].queue.Accepted() == [];
    assert ClientOk(s.db, after.clients[c]);
    forall t | t in s.threads ensures ThreadOk(s.db, after.clients, s.threads[t]) {
      NobodyDeliveringIgnoresClients(s.db, s.clients, after.clients, s.threads[t]);
    }
  }

  lemma DisconnectKeepsRegistry(s: State, c: nat)
    requires RegistryOk(s) && Enabled(s, Disconnect(c))
    ensures RegistryOk(Apply(s, Disconnect(c)))
  {
    var after := Apply(s, Disconnect(c));
    var user := s.clients[c].user;
    RemoveKeeps(s.reg, UserOf(s), user, c);
    WithoutMembers(Lookup(s.reg, user), c);
    assert UserOf(after) == UserOf(s);
    assert Lookup(after.reg, user) == Without(Lookup(s.reg, user), c);
  }

  /** The clients' histories and users are as they were. */
  ghost predicate SameHistories(before: map<nat, Connection>, after: map<nat, Connection>) {
    && before.Keys == after.Keys
    && forall c :: c in before ==>
         after[c].user == before[c].user && after[c].queue.Accepted() == before[c].queue.Accepted()
  }

  lemma SameHistoriesKeep(s: State, clients: map<nat, Connection>)
    requires ClientsOk(s) && AwaitedUnseen(s) && SameHistories(s.clients, clients)
    ensures ClientsOk(s.(clients := clients)) && AwaitedUnseen(s.(clients := clients))
  {
    forall t, c | t in s.threads && c in clients && Awaits(s.threads[t], c)
      ensures Unseen(clients[c], Active(s.threads[t]).value)
    {
      assert Unseen(s.clients[c], Active(s.threads[t]).value);
    }
    forall c | c in clients ensures ClientOk(s.db, clients[c]) {
      assert ClientOk(s.db, s.clients[c]);
    }
  }

  lemma DisconnectKeepsInv(s: State, c: nat)
    requires Inv(s) && Enabled(s, Disconnect(c))
    ensures Inv(Apply(s, Disconnect(c)))
  {
    var after := Apply(s, Disconnect(c));
    DisconnectKeepsRegistry(s, c);
    SameHistoriesKeep(s, after.clients);
    forall t | t in s.threads ensures ThreadOk(s.db, after.clients, s.threads[t]) {
      NobodyDeliveringIgnoresClients(s.db, s.clients, after.clients, s.threads[t]);
    }
  }

  lemma ReadKeepsInv(s: State, c: nat)
    requires Inv(s) && Enabled(s, ReadQueue(c))
    ensures Inv(Apply(s, ReadQueue(c)))
  {
    var clients := Apply(s, ReadQueue(c)).clients;
    ReadMovesOne(s, c);
    SameHistoriesKeep(s, clients);
    SameEndsKeep(s, clients);
    assert Apply(s, ReadQueue(c)) == s.(clients := clients);
  }

  lemma ReadMovesOne(s: State, c: nat)
    requires Enabled(s, ReadQueue(c))
    ensures SameHistories(s.clients, Apply(s, ReadQueue(c)).clients)
    ensures SameEnds(s.clients, Apply(s, ReadQueue(c)).clients)
  {
    var q := s.clients[c].queue;
    assert q.taken + [q.buf[0]] + q.buf[1..] == q.taken + q.buf;
  }

  // ---------- Rows from outside ----------

  lemma OutsideRowsKeepInv(s: State, db: Db, ext: set<(string, string)>)
    requires Inv(s) && Grows(s.db, db)
    requires DmOk(s.(db := db, ext := ext))
    ensures Inv(s.(db := db, ext := ext))
  {
    var after := s.(db := db, ext := ext);
    forall c | c in s.clients ensures ClientOk(db, s.clients[c]) {
      GrowKeepsClient(s.db, db, s.clients[c]);
    }
    forall t | t in s.threads ensures ThreadOk(db, s.clients, s.threads[t]) {
      GrowKeepsThread(s.db, db, s.clients, s.threads[t]);
    }
    assert UserOf(after) == UserOf(s);
  }

  lemma OutsideKeepsDm(s: State, step: Step)
    requires Inv(s) && Enabled(s, step)
    requires step.AddUser? || step.AddChannel? || step.AddMember?
    ensures DmOk(Apply(s, step))
  {
    var after := Apply(s, step);
    forall a, b | ColonFree(a) && ColonFree(b) && a != b
      ensures PairOk(after.db, after.ext, a, b)
    {
      assert PairOk(s.db, s.ext, a, b);
      assert IsDmId(DmId(a, b));
    }
  }

  // ---------- All steps ----------

  lemma StepKeepsInv(s: State, step: Step)
    requires Inv(s) && Enabled(s, step)
    ensures Inv(Apply(s, step))
  {
    match step
    case Start(t, r) =>
      QuietMoveKeepsInv(s, t, if r.goal.OpenDm? then ResolveUser(r) else ResolveType(r));
    case Run(t, pick) => RunKeepsInv(s, t, pick);
    case Fail(t) => QuietMoveKeepsInv(s, t, Done(Err(Failed)));
    case Lock(t, order) => LockKeepsInv(s, t, order);
    case Deliver(t) => DeliverKeepsInv(s, t);
    case Finish(t) => QuietMoveKeepsInv(s, t, Done(Ok(s.threads[t].m.id)));
    case Connect(c, user) => ConnectKeepsInv(s, c, user);
    case Disconnect(c) => DisconnectKeepsInv(s, c);
    case ReadQueue(c) => ReadKeepsInv(s, c);
    case _ => OutsideKeepsInv(s, step);
  }

  lemma OutsideKeepsInv(s: State, step: Step)
    requires Inv(s) && Enabled(s, step)
    requires step.AddUser? || step.AddChannel? || step.AddMember?
    ensures Inv(Apply(s, step))
  {
    OutsideKeepsDm(s, step);
    OutsideRowsKeepInv(s, Apply(s, step).db, Apply(s, step).ext);
  }
}
