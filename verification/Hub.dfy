/** The admin event hub as an object: the three arms of its select loop, proved to be the steps of
    `HubModel`. Go panics on a send to or a close of a closed channel, so `TrySend` and `Close`
    demand an open one; that the arms verify shows that none of them panics. */
module Hub {
  import opened Channels
  import opened HubModel

  class Client {
    const id: string
    const userId: string
    var send: Queue<Msg>
    ghost var joinedAt: nat
    ghost var leftAt: Option<nat>

    ghost function Model(): Member
      reads this
    {
      Member(send, joinedAt, leftAt)
    }

    constructor (id: string, userId: string)
      ensures this.id == id && this.userId == userId
      ensures send == Queue([], true, [])
    {
      this.id, this.userId := id, userId;
      send := Queue([], true, []);
    }

    /** `select { case c.Send <- msg: default: }` */
    method TrySend(msg: Msg) returns (sent: bool)
      requires send.open
      modifies `send
      ensures sent == (|old(send).buf| < 256)
      ensures send == if sent then old(send).Put(msg) else old(send)
    {
      sent := |send.buf| < CLIENT_CAPACITY;
      if sent {
        send := send.Put(msg);
      }
    }

    method Close()
      requires send.open
      modifies `send
      ensures send == old(send).Shut()
    {
      send := send.Shut();
    }
  }

  class Hub {
    var clients: set<Client>
    var broadcast: Queue<Msg>
    /** The event that the goroutine of the hub is blocked on, if any. */
    var pending: Option<Msg>

    ghost var ever: set<Client>
    ghost var accepted: seq<Msg>

    ghost function Members(): map<Client, Member>
      reads this, ever
    {
      map c | c in ever :: c.Model()
    }

    /** The state that the objects represent. */
    ghost function Model(): State<Client>
      reads this, ever
    {
      State(clients, Members(), broadcast.buf, broadcast.taken, accepted, pending)
    }

    ghost predicate Valid()
      reads this, ever
    {
      Inv(Model())
    }

    constructor ()
      ensures Valid() && Model() == Init()
    {
      clients, ever, broadcast, pending, accepted := {}, {}, Queue([], true, []), None, [];
      new;
      assert Model() == Init();
    }

    /** The hub's own event is last in the buffer when there was room, and otherwise waits. */
    ghost predicate Queued(was: seq<Msg>, event: Msg)
      reads this
    {
      if |was| < 256 then broadcast.buf == was + [event] && pending == None
      else broadcast.buf == was && pending == Some(event)
    }

    /** A blocking send by the goroutine of the hub: it is done at once when there is room, and is left
        pending otherwise. */
    method BroadcastEvent(event: Msg)
      requires pending.None?
      modifies `broadcast, `pending, `accepted
      ensures Model() == Settle(old(Model()).(pending := Some(event)))
      ensures Queued(old(broadcast.buf), event)
    {
      pending := Some(event);
      Resume();
    }

    /** The pending send is retried when the buffer may have room. */
    method Resume()
      modifies `broadcast, `pending, `accepted
      ensures Model() == Settle(old(Model()))
      ensures old(pending).Some? ==> Queued(old(broadcast.buf), old(pending).value)
    {
      if pending.Some? && |broadcast.buf| < BROADCAST_CAPACITY {
        broadcast := broadcast.Put(pending.value);
        accepted := accepted + [pending.value];
        pending := None;
      }
      assert Members() == old(Members());
    }

    /** An event from another goroutine, in a state where its send does not block. */
    method Emit(event: Msg)
      requires Valid() && HasRoom(Model())
      modifies `broadcast, `accepted
      ensures Valid()
      ensures Model() == Apply(old(Model()), Step.Emit(event))
      ensures broadcast.buf == old(broadcast.buf) + [event]
    {
      StepKeepsInv(Model(), Step.Emit(event));
      broadcast := broadcast.Put(event);
      accepted := accepted + [event];
      assert Members() == old(Members());
    }

    /** `case c := <-h.register`. The handler passes a client that it has just made. */
    method OnRegister(c: Client)
      requires Valid() && pending.None?
      requires c !in ever && c.send == Queue([], true, [])
      modifies this, c
      ensures Valid()
      ensures Model() == Settle(Apply(old(Model()), Register(c, UserConnected(c.userId, c.id))))
      ensures clients == old(clients) + {c} && c.send == old(c.send)
      ensures Queued(old(broadcast.buf), UserConnected(c.userId, c.id))
    {
      StepKeepsInv(Model(), Register(c, UserConnected(c.userId, c.id)));
      SettleKeepsInv(Apply(Model(), Register(c, UserConnected(c.userId, c.id))));
      AddClient(c);
      BroadcastEvent(UserConnected(c.userId, c.id));
    }

    method AddClient(c: Client)
      requires c !in ever && c.send == Queue([], true, [])
      modifies `clients, `ever, c`joinedAt, c`leftAt
      ensures Model() == Join(old(Model()), c)
    {
      clients := clients + {c};
      ever, c.joinedAt, c.leftAt := ever + {c}, |broadcast.taken|, None;
      assert Members() == Join(old(Model()), c).members;
    }

    /** `case c := <-h.unregister`. */
    method OnUnregister(c: Client)
      requires Valid() && pending.None?
      modifies this, c
      ensures Valid()
      ensures Model() == Settle(Apply(old(Model()), Unregister(c, UserDisconnected(c.userId, c.id))))
      ensures clients == old(clients) - {c}
      ensures c.send == if c in old(clients) then old(c.send).(open := false) else old(c.send)
      ensures ever == old(ever) && forall d :: d in old(ever) && d != c ==> d.Model() == old(d.Model())
      ensures Queued(old(broadcast.buf), UserDisconnected(c.userId, c.id))
    {
      StepKeepsInv(Model(), Unregister(c, UserDisconnected(c.userId, c.id)));
      SettleKeepsInv(Apply(Model(), Unregister(c, UserDisconnected(c.userId, c.id))));
      ListedAreOpen();
      RemoveClient(c);
      BroadcastEvent(UserDisconnected(c.userId, c.id));
    }

    method RemoveClient(c: Client)
      requires c in clients ==> c in ever && c.send.open
      modifies `clients, c`send, c`leftAt
      ensures Model() == Drop(old(Model()), c)
      ensures clients == old(clients) - {c}
      ensures c.send == if c in old(clients) then old(c.send).(open := false) else old(c.send)
    {
      if c in clients {
        clients := clients - {c};
        c.Close();
        c.leftAt := Some(|broadcast.taken|);
      }
      assert Members() == Drop(old(Model()), c).members;
    }

    /** `case msg := <-h.broadcast`, in a state where the buffer is not empty. */
    method OnBroadcast()
      requires Valid() && pending.None? && broadcast.buf != []
      modifies this, ever
      ensures Valid()
      ensures Model() == Apply(old(Model()), Broadcast)
    {
      StepKeepsInv(Model(), Broadcast);
      ListedAreOpen();
      DrainOne();
    }

    method DrainOne()
      requires broadcast.buf != [] && clients <= ever
      requires forall c :: c in clients ==> c.send.open
      modifies `broadcast, `clients, ever
      ensures Model() == Deliver(old(Model()))
    {
      ghost var before := Model();
      var msg := broadcast.buf[0];
      broadcast := broadcast.Take();
      assert Members() == before.members;
      DeliverAll(msg);
      assert Members() == Deliver(before).members;
    }

    lemma ListedAreOpen()
      requires Valid()
      ensures clients <= ever
      ensures forall c :: c in clients ==> c.send.open
    {
      forall c | c in clients
        ensures c in ever && c.send.open
      {
        assert c in Members() && Members()[c] == c.Model();
      }
    }

    /** The loop of a broadcast over the listed clients, in arbitrary order. */
    method DeliverAll(msg: Msg)
      requires clients <= ever && broadcast.taken != []
      requires forall c :: c in clients ==> c.send.open
      modifies `clients, ever
      ensures clients == set c | c in old(clients) && !Full(old(Members())[c])
      ensures forall c :: c in ever ==>
                c.Model() == MeetIf(c in old(clients), old(Members())[c], msg, |broadcast.taken| - 1)
    {
      ghost var was := Members();
      var todo := clients;
      while todo != {}
        invariant todo <= clients
        invariant clients == set c | c in old(clients) && (c in todo || !Full(was[c]))
        invariant forall c :: c in ever ==>
                    c.Model() == MeetIf(c in old(clients) && c !in todo, was[c], msg, |broadcast.taken| - 1)
        decreases todo
      {
        var c :| c in todo;
        todo := todo - {c};
        assert c.Model() == was[c];
        MeetClient(c, msg);
      }
    }

    /** The body of that loop: the message is sent, or the client is closed and dropped. */
    method MeetClient(c: Client, msg: Msg)
      requires c.send.open && broadcast.taken != []
      modifies `clients, c`send, c`leftAt
      ensures c.Model() == Meet(old(c.Model()), msg, |broadcast.taken| - 1)
      ensures clients == if Full(old(c.Model())) then old(clients) - {c} else old(clients)
    {
      var sent := c.TrySend(msg);
      if !sent {
        c.Close();
        clients := clients - {c};
        c.leftAt := Some(|broadcast.taken| - 1);
      }
    }

    static ghost function MeetIf(listed: bool, m: Member, msg: Msg, at: nat): Member {
      if listed then Meet(m, msg, at) else m
    }

    /** One receive by the write loop of a client's connection. */
    method ReadClient(c: Client) returns (msg: Msg)
      requires Valid() && c in ever && c.send.buf != []
      modifies c
      ensures Valid()
      ensures msg == old(c.send).buf[0]
      ensures c.send.buf == old(c.send).buf[1..] && c.send.taken == old(c.send).taken + [msg]
      ensures Model() == Apply(old(Model()), Read(c))
    {
      ghost var before := Model();
      StepKeepsInv(before, Read(c));
      msg := c.send.buf[0];
      c.send := c.send.Take();
      assert Members() == Apply(before, Read(c)).members;
    }

    method ClientCount() returns (n: nat)
      ensures n == |Model().listed|
    {
      n := |clients|;
    }
  }
}
