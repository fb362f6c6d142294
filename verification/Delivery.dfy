/** The messaging service under interference: any number of requests, each advancing one statement or
    one channel operation at a time, interleaved with connections coming and going, clients reading
    their queues, and rows being added by the admin service. */
module Delivery {
  import opened Channels
  import opened Store
  import opened Registry
  import opened Router

  datatype Goal = SendMessage | OpenDm | ReadHistory

  datatype Request = Request(user: string, goal: Goal, body: SendRequest) {
    /** The channel, or the user, that the request names. */
    function Named(): string {
      body.channelId
    }
  }

  /** Whom a broadcast found to be its receivers. */
  datatype Audience = Everyone | Only(users: seq<string>)

  /** Where a request is: what it does next. `peer` is set when the channel was found by naming a user. */
  datatype Pc =
    | ResolveType(r: Request)
    | ResolveUser(r: Request)
    | DmCheck(r: Request)
    | DmInsert(r: Request)
    | AuthType(r: Request, channel: string, peer: Option<string>)
    | AuthMember(r: Request, channel: string, peer: Option<string>)
    | Save(r: Request, channel: string)
    | BcastType(m: Message)
    | BcastMembers(m: Message)
    | BcastLock(m: Message, audience: Audience)
    | Delivering(m: Message, todo: seq<nat>)
    | Opened(r: Request, channel: string)
    | Done(result: Result<string>)

  datatype Connection = Connection(user: string, queue: Queue<Message>)

  /** `ext` records the member rows that came from outside this service. */
  datatype State = State(
    db: Db,
    ext: set<(string, string)>,
    reg: Registry<nat>,
    clients: map<nat, Connection>,
    threads: map<nat, Pc>)

  /** What a statement's surroundings decide: a generated message id, the clock, the order of rows. */
  datatype Pick = Pick(id: string, now: int, rows: seq<string>)

  datatype Step =
    | Start(t: nat, r: Request)
    | Run(t: nat, pick: Pick)
    | Fail(t: nat)
    | Lock(t: nat, order: seq<string>)
    | Deliver(t: nat)
    | Finish(t: nat)
    | Connect(c: nat, user: string)
    | Disconnect(c: nat)
    | ReadQueue(c: nat)
    | AddUser(user: string)
    | AddChannel(channel: string, row: ChannelRow)
    | AddMember(channel: string, user: string)

  // ---------- Steps ----------

  /** The next action is one database statement or transaction. */
  predicate IsLocal(pc: Pc) {
    !pc.BcastLock? && !pc.Delivering? && !pc.Opened? && !pc.Done?
  }

  function Found(r: Request): Pc {
    var id := DmId(r.user, r.Named());
    if r.goal.OpenDm? then Opened(r, id) else AuthType(r, id, Some(r.Named()))
  }

  function Granted(r: Request, channel: string): Pc {
    if r.goal.SendMessage? then Save(r, channel) else Done(Ok(channel))
  }

  /** One statement of a request: the database after it, and where the request is then. */
  function Local(db: Db, pc: Pc, pick: Pick): (Db, Pc)
    requires IsLocal(pc)
  {
    match pc
    case ResolveType(r) =>
      if r.Named() == "" then (db, Done(Err(Missing)))
      else (match ChannelType(db, r.Named())
            case Ok(_) => (db, AuthType(r, r.Named(), None))
            case Err(e) => (db, if e == Missing then ResolveUser(r) else Done(Err(e))))
    case ResolveUser(r) =>
      (db, if r.Named() == "" || r.Named() !in db.users then Done(Err(Missing))
           else if r.Named() == r.user then Done(Err(Forbidden)) else DmCheck(r))
    case DmCheck(r) =>
      (db, if DmId(r.user, r.Named()) in db.channels then Found(r) else DmInsert(r))
    case DmInsert(r) =>
      (match InsertDm(db, DmId(r.user, r.Named()), r.user, r.Named())
       case Ok(after) => (after, Found(r))
       case Err(e) => (db, Done(Err(e))))
    case AuthType(r, channel, peer) =>
      (match ChannelType(db, channel)
       case Ok(kind) => (db, if kind == "public" then Granted(r, channel) else AuthMember(r, channel, peer))
       case Err(e) => (db, Done(Err(e))))
    case AuthMember(r, channel, peer) =>
      (db, if IsMember(db, channel, r.user) then Granted(r, channel) else Done(Err(Forbidden)))
    case Save(r, channel) =>
      var m := NewMessage(r.body, r.user, channel, pick.id, pick.now);
      (match InsertMessage(db, m)
       case Ok(after) => (after, BcastType(m))
       case Err(e) => (db, Done(Err(e))))
    case BcastType(m) =>
      (match ChannelType(db, m.channelId)
       case Ok(kind) => (db, if kind == "public" then BcastLock(m, Everyone) else BcastMembers(m))
       case Err(e) => (db, Done(Err(e))))
    case BcastMembers(m) => (db, BcastLock(m, Only(pick.rows)))
  }

  /** An id that this service would give to the channel of some pair of users. */
  ghost predicate IsDmId(id: string) {
    exists a, b :: ColonFree(a) && ColonFree(b) && id == DmId(a, b)
  }

  /** The write lock of the registry is free for the taking: no broadcast holds the read lock. */
  predicate NobodyDelivers(s: State) {
    forall t :: t in s.threads ==> !s.threads[t].Delivering?
  }

  ghost predicate Enabled(s: State, step: Step) {
    match step
    case Start(t, r) => t !in s.threads && r.user in s.db.users
    case Run(t, pick) =>
      && t in s.threads && IsLocal(s.threads[t])
      && (s.threads[t].BcastMembers? ==> IsMemberList(s.db, s.threads[t].m.channelId, pick.rows))
    case Fail(t) => t in s.threads && IsLocal(s.threads[t])
    case Lock(t, order) =>
      && t in s.threads && s.threads[t].BcastLock?
      && NoDuplicates(order) && (forall u :: u in order <==> u in s.reg)
    case Deliver(t) =>
      && t in s.threads && s.threads[t].Delivering? && s.threads[t].todo != []
      && s.threads[t].todo[0] in s.clients
    case Finish(t) => t in s.threads && s.threads[t].Delivering? && s.threads[t].todo == []
    case Connect(c, user) => NobodyDelivers(s) && c !in s.clients && user in s.db.users
    case Disconnect(c) => NobodyDelivers(s) && c in s.clients
    case ReadQueue(c) => c in s.clients && s.clients[c].queue.buf != []
    case AddUser(user) => ColonFree(user)
    case AddChannel(channel, row) => channel !in s.db.channels && !IsDmId(channel)
    case AddMember(channel, user) => !IsMember(s.db, channel, user)
  }

  function Receivers(s: State, audience: Audience, order: seq<string>): seq<nat> {
    match audience
    case Everyone => ClientsOf(s.reg, order)
    case Only(users) => ClientsOf(s.reg, users)
  }

  function WithQueue(k: Connection, q: Queue<Message>): Connection {
    Connection(k.user, q)
  }

  function Apply(s: State, step: Step): State
    requires Enabled(s, step)
  {
    match step
    case Start(t, r) =>
      s.(threads := s.threads[t := if r.goal.OpenDm? then ResolveUser(r) else ResolveType(r)])
    case Run(t, pick) =>
      var (db, pc) := Local(s.db, s.threads[t], pick);
      s.(db := db, threads := s.threads[t := pc])
    case Fail(t) => s.(threads := s.threads[t := Done(Err(Failed))])
    case Lock(t, order) =>
      var pc := s.threads[t];
      s.(threads := s.threads[t := Delivering(pc.m, Receivers(s, pc.audience, order))])
    case Deliver(t) =>
      var pc := s.threads[t];
      var c := pc.todo[0];
      var k := s.clients[c];
      s.(clients := s.clients[c := WithQueue(k, Offered(k.queue, pc.m))],
         threads := s.threads[t := Delivering(pc.m, pc.todo[1..])])
    case Finish(t) => s.(threads := s.threads[t := Done(Ok(s.threads[t].m.id))])
    case Connect(c, user) =>
      s.(reg := Add(s.reg, user, c), clients := s.clients[c := Connection(user, Queue([], true, []))])
    case Disconnect(c) =>
      var k := s.clients[c];
      s.(reg := Remove(s.reg, k.user, c),
         clients := s.clients[c := if c in Lookup(s.reg, k.user) then WithQueue(k, k.queue.Shut()) else k])
    case ReadQueue(c) =>
      s.(clients := s.clients[c := WithQueue(s.clients[c], s.clients[c].queue.Take())])
    case AddUser(user) => s.(db := s.db.(users := s.db.users + {user}))
    case AddChannel(channel, row) => s.(db := s.db.(channels := s.db.channels[channel := row]))
    case AddMember(channel, user) =>
      s.(db := s.db.(members := s.db.members + {(channel, user)}), ext := s.ext + {(channel, user)})
  }

  function Init(): State {
    State(Db({}, map[], {}, map[]), {}, map[], map[], map[])
  }

  // ---------- The invariant ----------

  function UserOf(s: State): map<nat, string> {
    map c | c in s.clients :: s.clients[c].user
  }

  /** The lists are well formed and a client's queue is open exactly while it is listed. */
  ghost predicate RegistryOk(s: State) {
    && Wellformed(s.reg, UserOf(s))
    && forall c :: c in s.clients ==> (s.clients[c].queue.open <==> c in Lookup(s.reg, s.clients[c].user))
  }

  /** A stored message from someone who may use its channel. */
  ghost predicate Legitimate(db: Db, m: Message) {
    && m.id in db.messages && db.messages[m.id] == m
    && Authorised(db, m.senderId, m.channelId)
  }

  ghost predicate DistinctIds(ms: seq<Message>) {
    forall i, j :: 0 <= i < j < |ms| ==> ms[i].id != ms[j].id
  }

  /** What was ever queued for a client. */
  ghost predicate ClientOk(db: Db, k: Connection) {
    && (forall m :: m in k.queue.Accepted() ==> Legitimate(db, m) && Authorised(db, k.user, m.channelId))
    && DistinctIds(k.queue.Accepted())
  }

  ghost predicate ThreadOk(db: Db, clients: map<nat, Connection>, pc: Pc) {
    match pc
    case ResolveType(r) => r.user in db.users
    case ResolveUser(r) => r.user in db.users
    case DmCheck(r) => r.user in db.users && r.Named() in db.users && r.user != r.Named()
    case DmInsert(r) => r.user in db.users && r.Named() in db.users && r.user != r.Named()
    case AuthType(r, channel, peer) => peer.Some? ==> DmOpenFor(db, channel, r.user, peer.value)
    case AuthMember(r, channel, peer) =>
      ChannelType(db, channel).Ok? && (peer.Some? ==> DmOpenFor(db, channel, r.user, peer.value))
    case Save(r, channel) => Authorised(db, r.user, channel)
    case BcastType(m) => Legitimate(db, m)
    case BcastMembers(m) => Legitimate(db, m)
    case BcastLock(m, audience) =>
      && Legitimate(db, m)
      && (match audience
          case Everyone => ChannelType(db, m.channelId) == Ok("public")
          case Only(users) => NoDuplicates(users) && forall u :: u in users ==> Authorised(db, u, m.channelId))
    case Delivering(m, todo) =>
      && Legitimate(db, m) && NoDuplicates(todo)
      && forall c :: c in todo ==>
           c in clients && clients[c].queue.open && Authorised(db, clients[c].user, m.channelId)
    case Opened(r, channel) => DmOpenFor(db, channel, r.user, r.Named())
    case Done(_) => true
  }

  /** The channel is the pair's own, and both may use it. */
  ghost predicate DmOpenFor(db: Db, channel: string, a: string, b: string) {
    && channel == DmId(a, b)
    && ChannelType(db, channel) == Ok("dm")
    && Authorised(db, a, channel) && Authorised(db, b, channel)
  }

  /** The message that a request has stored and not yet handed to everyone. */
  function Active(pc: Pc): Option<Message> {
    if pc.BcastType? || pc.BcastMembers? || pc.BcastLock? || pc.Delivering? then Some(pc.m) else None
  }

  /** The request may still hand its message to this client. */
  predicate Awaits(pc: Pc, c: nat) {
    Active(pc).Some? && (pc.Delivering? ==> c in pc.todo)
  }

  ghost predicate Unseen(k: Connection, m: Message) {
    forall x :: x in k.queue.Accepted() ==> x.id != m.id
  }

  ghost predicate ThreadsOk(s: State) {
    forall t :: t in s.threads ==> ThreadOk(s.db, s.clients, s.threads[t])
  }

  ghost predicate ClientsOk(s: State) {
    forall c :: c in s.clients ==> ClientOk(s.db, s.clients[c])
  }

  ghost predicate ActiveDistinct(s: State) {
    forall t, u :: t in s.threads && u in s.threads && t != u &&
                   Active(s.threads[t]).Some? && Active(s.threads[u]).Some? ==>
                   Active(s.threads[t]).value.id != Active(s.threads[u]).value.id
  }

  ghost predicate AwaitedUnseen(s: State) {
    forall t, c :: t in s.threads && c in s.clients && Awaits(s.threads[t], c) ==>
                   Unseen(s.clients[c], Active(s.threads[t]).value)
  }

  /** A pair's DM channel exists with exactly the pair as members, plus rows from outside; and without
      the channel there are only rows from outside. */
  ghost predicate PairOk(db: Db, ext: set<(string, string)>, a: string, b: string) {
    var id := DmId(a, b);
    if id in db.channels then
      && db.channels[id].kind == Some("dm")
      && forall u :: IsMember(db, id, u) <==> u == a || u == b || (id, u) in ext
    else
      forall u :: IsMember(db, id, u) <==> (id, u) in ext
  }

  ghost predicate DmOk(s: State) {
    && (forall u :: u in s.db.users ==> ColonFree(u))
    && forall a, b :: ColonFree(a) && ColonFree(b) && a != b ==> PairOk(s.db, s.ext, a, b)
  }

  ghost predicate Inv(s: State) {
    && RegistryOk(s)
    && ClientsOk(s)
    && ThreadsOk(s)
    && ActiveDistinct(s)
    && AwaitedUnseen(s)
    && DmOk(s)
  }
}
