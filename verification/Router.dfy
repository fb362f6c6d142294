/** The message router as an object: connection registry, channel access, storage and broadcast, each
    as the code runs it when no other request interferes. `Delivery` covers interference. */
module Router {
  import opened Channels
  import opened Store
  import opened Registry
  import Strings

  const SEND_CAPACITY := 256

  /** A non-blocking send: dropped when the queue is full. */
  function Offered(q: Queue<Message>, m: Message): Queue<Message> {
    if |q.buf| < SEND_CAPACITY then q.Put(m) else q
  }

  class Client {
    const userId: string
    var send: Queue<Message>

    constructor (userId: string)
      ensures this.userId == userId && send == Queue([], true, [])
    {
      this.userId := userId;
      send := Queue([], true, []);
    }

    /** Sending on a closed channel panics. */
    method Offer(m: Message)
      requires send.open
      modifies this
      ensures send == Offered(old(send), m)
      ensures send.open && send.taken == old(send.taken)
      ensures send.buf == if |old(send).buf| < 256 then old(send).buf + [m] else old(send).buf
    {
      if |send.buf| < SEND_CAPACITY {
        send := send.Put(m);
      }
    }
  }

  datatype SendRequest = SendRequest(
    channelId: string,
    content: string,
    nonce: string,
    signature: string,
    kind: int)

  datatype ChannelView = ChannelView(id: string, name: string, kind: string)

  /** The listed channels: a row scans only if neither its name nor its type is NULL. */
  function Views(rows: seq<ListRow>): seq<ChannelView> {
    if rows == [] then []
    else
      var row := rows[|rows| - 1];
      Views(rows[..|rows| - 1]) +
      if row.name.Some? && row.kind.Some? then [ChannelView(row.id, row.name.value, row.kind.value)] else []
  }

  function NewMessage(req: SendRequest, sender: string, channel: string, id: string, now: int): Message {
    Message(id, channel, sender, now, req.kind, req.content, req.nonce, req.signature)
  }

  const HISTORY_LIMIT := 100

  /** Any answer to `WHERE channel_id = ? ORDER BY timestamp ASC LIMIT 100`: in time order, and whatever
      of the channel is left out is not older than anything that is in. */
  ghost predicate IsHistory(db: Db, channel: string, rows: seq<Message>) {
    && NoDuplicates(rows)
    && |rows| <= HISTORY_LIMIT
    && (forall m :: m in rows ==> m.id in db.messages && db.messages[m.id] == m && m.channelId == channel)
    && (forall i, j :: 0 <= i < j < |rows| ==> rows[i].timestamp <= rows[j].timestamp)
    && (forall id :: id in db.messages && db.messages[id].channelId == channel ==>
          db.messages[id] in rows ||
          (|rows| == HISTORY_LIMIT && forall x :: x in rows ==> x.timestamp <= db.messages[id].timestamp))
  }

  class MessageRouter {
    var db: Db
    var clients: Registry<Client>

    /** Each listed client is listed once, under its own user, with an open queue. */
    ghost predicate Valid()
      reads this, Listed(clients)
    {
      && OwnLists(clients)
      && (forall c :: c in Listed(clients) ==> c.send.open)
    }

    static ghost predicate OwnLists(reg: Registry<Client>) {
      && (forall u :: u in reg ==> reg[u] != [] && NoDuplicates(reg[u]))
      && (forall u, c :: u in reg && c in reg[u] ==> c.userId == u)
    }

    static lemma RemoveKeepsLists(reg: Registry<Client>, client: Client)
      requires OwnLists(reg)
      ensures OwnLists(Remove(reg, client.userId, client))
      ensures forall c :: c in Listed(Remove(reg, client.userId, client)) ==> c in Listed(reg) && c != client
      ensures client in Listed(reg) <==> client in Lookup(reg, client.userId)
    {
      var after := Remove(reg, client.userId, client);
      WithoutMembers(Lookup(reg, client.userId), client);
      forall u, c | u in after && c in after[u]
        ensures u in reg && c in reg[u] && c != client
      {
        if u == client.userId {
          assert c in Without(Lookup(reg, u), client);
        } else {
          assert after[u] == reg[u];
        }
      }
      if client in Lookup(reg, client.userId) {
        assert client.userId in reg;
      }
    }

    constructor (db: Db)
      ensures Valid() && this.db == db && clients == map[]
    {
      this.db := db;
      clients := map[];
    }

    method Register(userId: string) returns (client: Client)
      requires Valid()
      modifies `clients
      ensures Valid()
      ensures fresh(client) && client.userId == userId && client.send == Queue([], true, [])
      ensures clients == Add(old(clients), userId, client)
    {
      client := new Client(userId);
      clients := clients[userId := (if userId in clients then clients[userId] else []) + [client]];
    }

    /** Closing a closed channel panics: the queue of a listed client is open, and `Valid` says so. */
    method Unregister(client: Client)
      requires Valid()
      modifies `clients, client
      ensures Valid()
      ensures clients == Remove(old(clients), client.userId, client)
      ensures client.send == if client in old(Listed(clients)) then old(client.send).Shut() else old(client.send)
    {
      var userId := client.userId;
      var conns := if userId in clients then clients[userId] else [];
      var i := 0;
      while i < |conns| && conns[i] != client
        invariant 0 <= i <= |conns|
        invariant client !in conns[..i]
      {
        i := i + 1;
      }
      RemoveKeepsLists(clients, client);
      if i < |conns| {
        WithoutSplices(conns, i);
        clients := clients[userId := conns[..i] + conns[i + 1..]];
        client.send := client.send.Shut();
      } else {
        WithoutAbsent(conns, client);
      }
      if userId !in clients || clients[userId] == [] {
        clients := clients - {userId};
      }
    }

    method AuthorizeChannelAccess(userId: string, channelId: string) returns (r: Result<()>)
      ensures r == Access(db, userId, channelId)
    {
      var kind := ChannelType(db, channelId);
      if kind.Err? {
        return Err(kind.error);
      }
      if kind.value == "public" {
        return Ok(());
      }
      var member := IsMember(db, channelId, userId);
      if !member {
        return Err(Forbidden);
      }
      return Ok(());
    }

    /** `rows` is the answer of the database to the list query. */
    method ListAccessibleChannels(userId: string, rows: seq<ListRow>) returns (out: seq<ChannelView>)
      requires IsListing(db, userId, rows)
      ensures out == Views(rows)
    {
      out := [];
      for i := 0 to |rows|
        invariant out == Views(rows[..i])
      {
        var row := rows[i];
        assert rows[..i + 1][..i] == rows[..i];
        if row.name.Some? && row.kind.Some? {
          out := out + [ChannelView(row.id, row.name.value, row.kind.value)];
        }
      }
      assert rows[..|rows|] == rows;
    }

    method FindOrCreateDMChannel(u1: string, u2: string) returns (r: Result<string>)
      modifies `db
      ensures (r, db) == FindOrCreateDm(old(db), u1, u2)
    {
      var p1, p2 := u1, u2;
      if !Strings.StringLe(p1, p2) {
        p1, p2 := u2, u1;
      }
      var dmId := "dm:" + p1 + ":" + p2;
      assert dmId == "dm:" + Strings.Join(p1, ':', p2) == DmId(u1, u2);
      var found := dmId in db.channels;
      if !found {
        var inserted := InsertDm(db, dmId, u1, u2);
        if inserted.Err? {
          return Err(inserted.error);
        }
        db := inserted.value;
      }
      return Ok(dmId);
    }

    method ResolveRequestedChannel(senderId: string, requested: string) returns (r: Result<string>)
      modifies `db
      ensures (r, db) == Resolve(old(db), senderId, requested)
    {
      if requested == "" {
        return Err(Missing);
      }
      var kind := ChannelType(db, requested);
      if kind.Ok? {
        return Ok(requested);
      } else if kind.error != Missing {
        return Err(kind.error);
      }
      if requested !in db.users {
        return Err(Missing);
      }
      if requested == senderId {
        return Err(Forbidden);
      }
      r := FindOrCreateDMChannel(senderId, requested);
    }

    method SaveMessage(req: SendRequest, senderId: string, channelId: string, id: string, now: int)
      returns (r: Result<Message>)
      modifies `db
      ensures r.Ok? <==> id !in old(db).messages
      ensures r.Err? ==> r.error == Failed && db == old(db)
      ensures r.Ok? ==> r.value == NewMessage(req, senderId, channelId, id, now)
      ensures r.Ok? ==>
                var m := r.value;
                && m.id == id && m.channelId == channelId && m.senderId == senderId && m.timestamp == now
                && m.kind == req.kind && m.content == req.content
                && m.nonce == req.nonce && m.signature == req.signature
                && db == old(db).(messages := old(db).messages[id := m])
    {
      var msg := Message(id, channelId, senderId, now, req.kind, req.content, req.nonce, req.signature);
      var inserted := InsertMessage(db, msg);
      if inserted.Err? {
        return Err(inserted.error);
      }
      db := inserted.value;
      return Ok(msg);
    }

    /** `rows` is the answer of the database to the history query, when it comes to that. */
    method HandleHistory(userId: string, requested: string, rows: seq<Message>) returns (r: Result<seq<Message>>)
      requires
        var (target, db1) := Resolve(db, userId, requested);
        target.Ok? ==> IsHistory(db1, target.value, rows)
      modifies `db
      ensures db == Resolve(old(db), userId, requested).1
      ensures
        var target := Resolve(old(db), userId, requested).0;
        if target.Ok? && Authorised(db, userId, target.value) then r == Ok(rows) else r.Err?
      ensures r.Ok? ==> forall m :: m in r.value ==> Authorised(db, userId, m.channelId)
    {
      var target := ResolveRequestedChannel(userId, requested);
      if target.Err? {
        return Err(target.error);
      }
      var access := AuthorizeChannelAccess(userId, target.value);
      if access.Err? {
        return Err(access.error);
      }
      return Ok(rows);
    }

    /** The members of a channel that is not public, in the order the rows come. */
    method GetChannelMembers(channelId: string) returns (r: Result<(seq<string>, string)>)
      ensures r.Ok? <==> ChannelType(db, channelId).Ok?
      ensures r.Ok? ==> r.value.1 == ChannelType(db, channelId).value
      ensures r.Ok? && r.value.1 != "public" ==> IsMemberList(db, channelId, r.value.0)
    {
      var kind := ChannelType(db, channelId);
      if kind.Err? {
        return Err(kind.error);
      }
      if kind.value == "public" {
        return Ok(([], "public"));
      }
      var members: seq<string> := [];
      var rows := set p | p in db.members && p.0 == channelId;
      while rows != {}
        invariant rows <= db.members
        invariant NoDuplicates(members)
        invariant forall p :: p in rows ==> p.0 == channelId && p.1 !in members
        invariant forall u :: u in members ==> IsMember(db, channelId, u)
        invariant forall u :: IsMember(db, channelId, u) ==> u in members || (channelId, u) in rows
        decreases rows
      {
        var row :| row in rows;
        rows := rows - {row};
        assert row == (channelId, row.1);
        members := members + [row.1];
      }
      return Ok((members, kind.value));
    }

    method OfferAll(conns: seq<Client>, m: Message)
      requires NoDuplicates(conns)
      requires forall c :: c in conns ==> c.send.open
      modifies set c | c in conns
      ensures forall c :: c in conns ==> c.send == Offered(old(c.send), m)
    {
      for i := 0 to |conns|
        invariant forall k :: 0 <= k < i ==> conns[k].send == Offered(old(conns[k].send), m)
        invariant forall k :: i <= k < |conns| ==> conns[k].send == old(conns[k].send)
      {
        conns[i].Offer(m);
      }
    }

    /** The loop over everyone online. */
    method OfferEveryone(m: Message)
      requires Valid()
      modifies Listed(clients)
      ensures forall c :: c in Listed(clients) ==> c.send == Offered(old(c.send), m)
    {
      var todo := clients.Keys;
      while todo != {}
        invariant todo <= clients.Keys
        invariant forall c :: c in Listed(clients) ==>
                    c.send == if c.userId in todo then old(c.send) else Offered(old(c.send), m)
        decreases todo
      {
        var u :| u in todo;
        todo := todo - {u};
        forall c | c in clients[u] ensures c in Listed(clients) {
        }
        OfferAll(clients[u], m);
      }
    }

    /** The loop over the members of a channel. */
    method OfferUsers(users: seq<string>, m: Message)
      requires Valid() && NoDuplicates(users)
      modifies Listed(clients)
      ensures forall c :: c in Listed(clients) ==>
                c.send == if c.userId in users then Offered(old(c.send), m) else old(c.send)
    {
      for i := 0 to |users|
        invariant forall c :: c in Listed(clients) ==>
                    c.send == if c.userId in users[..i] then Offered(old(c.send), m) else old(c.send)
      {
        var u := users[i];
        if u in clients {
          forall c | c in clients[u] ensures c in Listed(clients) {
          }
          OfferAll(clients[u], m);
        }
        assert users[..i + 1] == users[..i] + [u];
      }
      assert users[..|users|] == users;
    }

    /** Exactly the connections of users who may access the channel are offered the message, once. */
    method Broadcast(m: Message) returns (r: Result<()>)
      requires Valid()
      modifies Listed(clients)
      ensures Valid()
      ensures r.Ok? <==> ChannelType(db, m.channelId).Ok?
      ensures forall c :: c in Listed(clients) ==>
                c.send == if Authorised(db, c.userId, m.channelId) then Offered(old(c.send), m) else old(c.send)
    {
      var found := GetChannelMembers(m.channelId);
      if found.Err? {
        return Err(found.error);
      }
      if found.value.1 == "public" {
        OfferEveryone(m);
      } else {
        OfferUsers(found.value.0, m);
      }
      return Ok(());
    }

    /** One send request, from resolving its target to the broadcast. */
    method HandleSend(senderId: string, req: SendRequest, id: string, now: int) returns (r: Result<string>)
      requires Valid()
      modifies `db, Listed(clients)
      ensures Valid()
      ensures
        var (target, db1) := Resolve(old(db), senderId, req.channelId);
        if target.Ok? && Authorised(db1, senderId, target.value) && id !in db1.messages then
          var m := NewMessage(req, senderId, target.value, id, now);
          && r == Ok(id)
          && m.id == id && m.channelId == target.value && m.senderId == senderId && m.timestamp == now
          && m.kind == req.kind && m.content == req.content
          && m.nonce == req.nonce && m.signature == req.signature
          && db == db1.(messages := db1.messages[id := m])
          && forall c :: c in Listed(clients) ==>
               c.send == if Authorised(db1, c.userId, target.value) then Offered(old(c.send), m) else old(c.send)
        else
          && r == (if target.Err? then target
                   else if Access(db1, senderId, target.value).Err? then
                     Err(Access(db1, senderId, target.value).error)
                   else Err(Failed))
          && db == db1 && forall c :: c in Listed(clients) ==> c.send == old(c.send)
    {
      var target := ResolveRequestedChannel(senderId, req.channelId);
      if target.Err? {
        return Err(target.error);
      }
      var access := AuthorizeChannelAccess(senderId, target.value);
      if access.Err? {
        return Err(access.error);
      }
      var saved := SaveMessage(req, senderId, target.value, id, now);
      if saved.Err? {
        return Err(saved.error);
      }
      var sent := Broadcast(saved.value);
      if sent.Err? {
        assert false;  // the type of the channel was read above, and channels keep their rows
      }
      return Ok(saved.value.id);
    }
  }

  // ---------- History ----------

  lemma {:induction false} DistinctCount<T>(s: seq<T>)
    requires NoDuplicates(s)
    ensures |set x | x in s| == |s|
  {
    if s != [] {
      DistinctCount(s[1..]);
      assert (set x | x in s) == {s[0]} + set x | x in s[1..];
    }
  }

  /** The messages of the channel with an earlier timestamp, and the others that are not later. */
  ghost function Earlier(db: Db, m: Message): set<string> {
    set id | id in db.messages && db.messages[id].channelId == m.channelId && db.messages[id].timestamp < m.timestamp
  }

  ghost function NotLater(db: Db, m: Message): set<string> {
    set id | id in db.messages && db.messages[id].channelId == m.channelId &&
             db.messages[id].timestamp <= m.timestamp && id != m.id
  }

  /** Which stored messages a history page shows: those with fewer than a hundred other messages of the
      channel up to their own time, and none with a hundred earlier ones. With distinct timestamps the
      two are one condition. So the page shows the oldest messages, and a full one never moves on. */
  lemma ShownIffAmongOldest(db: Db, m: Message, rows: seq<Message>)
    requires m.id in db.messages && db.messages[m.id] == m
    requires forall id :: id in db.messages ==> db.messages[id].id == id
    requires IsHistory(db, m.channelId, rows)
    ensures m in rows ==> |Earlier(db, m)| < 100
    ensures |NotLater(db, m)| < 100 ==> m in rows
    ensures Earlier(db, m) == NotLater(db, m) ==> (m in rows <==> |Earlier(db, m)| < 100)
  {
    if m in rows {
      EarlierAreShown(db, m, rows);
    } else {
      OthersFillPage(db, m, rows);
    }
  }

  /** The ids on a page. */
  ghost function Ids(rows: seq<Message>): set<string> {
    set x | x in rows :: x.id
  }

  lemma {:induction false} IdCount(rows: seq<Message>)
    requires forall i, j :: 0 <= i < j < |rows| ==> rows[i].id != rows[j].id
    ensures |Ids(rows)| == |rows|
  {
    if rows != [] {
      IdCount(rows[1..]);
      assert Ids(rows) == {rows[0].id} + Ids(rows[1..]);
    }
  }

  lemma EarlierAreShown(db: Db, m: Message, rows: seq<Message>)
    requires m.id in db.messages && db.messages[m.id] == m && m in rows
    requires forall id :: id in db.messages ==> db.messages[id].id == id
    requires IsHistory(db, m.channelId, rows)
    ensures |Earlier(db, m)| < HISTORY_LIMIT
  {
    IdCount(rows);
    forall id | id in Earlier(db, m) ensures id in Ids(rows) - {m.id} {
      assert db.messages[id] in rows;
    }
    SubsetSize(Earlier(db, m), Ids(rows) - {m.id});
  }

  lemma OthersFillPage(db: Db, m: Message, rows: seq<Message>)
    requires m.id in db.messages && db.messages[m.id] == m && m !in rows
    requires IsHistory(db, m.channelId, rows)
    ensures |NotLater(db, m)| >= HISTORY_LIMIT
  {
    IdCount(rows);
    SubsetSize(Ids(rows), NotLater(db, m));
  }

  /** In particular, whatever comes later never appears on a page that is full. */
  lemma FullHistoryIsFrozen(db: Db, m: Message, rows: seq<Message>, later: seq<Message>)
    requires m.id !in db.messages
    requires IsHistory(db, m.channelId, rows) && |rows| == HISTORY_LIMIT
    requires forall x :: x in rows ==> x.timestamp < m.timestamp
    requires IsHistory(db.(messages := db.messages[m.id := m]), m.channelId, later)
    ensures m !in later
  {
    var after := db.messages[m.id := m];
    assert forall x :: x in rows ==> x.id in after && after[x.id] == x;
    if m in later {
      var x := MissingRow(rows, later, m);
    }
  }

  /** A page of the same size that has something else leaves something out. */
  lemma MissingRow(rows: seq<Message>, later: seq<Message>, m: Message) returns (x: Message)
    requires NoDuplicates(rows) && NoDuplicates(later) && |later| <= |rows|
    requires m in later && m !in rows
    ensures x in rows && x !in later
  {
    var shown, page := set y | y in rows, set y | y in later;
    DistinctCount(rows);
    DistinctCount(later);
    if shown <= page - {m} {
      SubsetSize(shown, page - {m});
    }
    x :| x in shown && x !in page;
  }

  lemma {:induction false} SubsetSize<T>(a: set<T>, b: set<T>)
    requires a <= b
    ensures |a| <= |b|
  {
    assert b == a + (b - a);
  }

  // ---------- One access relation ----------

  lemma {:induction false} ViewsMembers(rows: seq<ListRow>, v: ChannelView)
    ensures v in Views(rows) <==> ListRow(v.id, Some(v.name), Some(v.kind)) in rows
  {
    if rows != [] {
      var row := rows[|rows| - 1];
      ViewsMembers(rows[..|rows| - 1], v);
      assert rows == rows[..|rows| - 1] + [row];
    }
  }

  /** Access is granted on exactly the listed channels, except that a channel whose name is NULL is
      never listed. */
  lemma ListedIffAuthorised(db: Db, user: string, rows: seq<ListRow>, channel: string)
    requires IsListing(db, user, rows)
    ensures (exists v :: v in Views(rows) && v.id == channel) <==>
            Authorised(db, user, channel) && db.channels[channel].name.Some?
  {
    if v :| v in Views(rows) && v.id == channel {
      ViewsMembers(rows, v);
      SelectedMeaning(db, user, ListRow(v.id, Some(v.name), Some(v.kind)));
    }
    if Authorised(db, user, channel) && db.channels[channel].name.Some? {
      var c := db.channels[channel];
      var v := ChannelView(channel, c.name.value, c.kind.value);
      SelectedMeaning(db, user, ListRow(channel, c.name, c.kind));
      ViewsMembers(rows, v);
    }
  }

  /** The unnamed public channel, which every user may access and nobody has in the list. The schema allows
      its row; this service writes no such row, so it comes from outside. */
  lemma UnnamedChannelIsNotListed(user: string, rows: seq<ListRow>)
    requires IsListing(Db({}, map["c" := ChannelRow(None, Some("public"))], {}, map[]), user, rows)
    ensures Authorised(Db({}, map["c" := ChannelRow(None, Some("public"))], {}, map[]), user, "c")
    ensures Views(rows) == []
  {
    var db := Db({}, map["c" := ChannelRow(None, Some("public"))], {}, map[]);
    if Views(rows) != [] {
      var v := Views(rows)[0];
      assert v in Views(rows);
      ListedIffAuthorised(db, user, rows, v.id);
    }
  }

  lemma {:induction false} ViewsKeepOrder(rows: seq<ListRow>)
    requires NoDuplicates(rows) && ByName(rows)
    requires forall r, s :: r in rows && s in rows && r.id == s.id ==> r == s
    ensures forall i, j :: 0 <= i < j < |Views(rows)| ==>
              Strings.StringLe(Views(rows)[i].name, Views(rows)[j].name) && Views(rows)[i].id != Views(rows)[j].id
  {
    if rows != [] {
      var n := |rows| - 1;
      var row := rows[n];
      ViewsKeepOrder(rows[..n]);
      forall v | v in Views(rows[..n])
        ensures row.name.Some? ==> Strings.StringLe(v.name, row.name.value)
        ensures v.id != row.id
      {
        ViewsMembers(rows[..n], v);
        var k :| 0 <= k < n && rows[k] == ListRow(v.id, Some(v.name), Some(v.kind));
        assert NameLe(rows[k].name, rows[n].name);
      }
    }
  }

  /** The list is sorted by name and shows no channel twice. */
  lemma ListingSorted(db: Db, user: string, rows: seq<ListRow>)
    requires IsListing(db, user, rows)
    ensures forall i, j :: 0 <= i < j < |Views(rows)| ==>
              Strings.StringLe(Views(rows)[i].name, Views(rows)[j].name) && Views(rows)[i].id != Views(rows)[j].id
  {
    ViewsKeepOrder(rows);
  }

  /** With nothing else running, naming another user as the target leads to a channel that both may
      access: an existing one when it is a DM channel with both as members, and else a new one, when no
      member row carries its id beforehand. */
  lemma UserTargetResolves(db: Db, sender: string, peer: string)
    requires peer != "" && peer in db.users && peer != sender && peer !in db.channels
    requires DmId(sender, peer) in db.channels ==>
               IsMember(db, DmId(sender, peer), sender) && IsMember(db, DmId(sender, peer), peer) &&
               db.channels[DmId(sender, peer)].kind == Some("dm")
    requires DmId(sender, peer) !in db.channels ==>
               forall u :: !IsMember(db, DmId(sender, peer), u)
    ensures
      var (r, after) := Resolve(db, sender, peer);
      r == Ok(DmId(sender, peer)) &&
      Authorised(after, sender, r.value) && Authorised(after, peer, r.value)
  {
    InsertDmOutcome(db, DmId(sender, peer), sender, peer);
  }
}
