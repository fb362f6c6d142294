/** The admin event hub as a step system: one goroutine selects among registrations, unregistrations
    and broadcasts, while other goroutines emit events and clients read their queues. */
module HubModel {
  import opened Channels

  /** The serialised events; those that the hub itself sends name the client. */
  datatype Msg =
    | UserConnected(userId: string, clientId: string)
    | UserDisconnected(userId: string, clientId: string)
    | Other(event: string, payload: string)

  const BROADCAST_CAPACITY := 256
  const CLIENT_CAPACITY := 256

  /** A client that was registered at some time: its queue, how many broadcasts had been drained when
      it joined, and how many when it left. */
  datatype Member = Member(queue: Queue<Msg>, joined: nat, left: Option<nat>) {

    function End(now: nat): nat {
      if left.Some? then left.value else now
    }
  }

  /** `C` identifies clients. `pending` is the event that the hub's own goroutine is still trying to
      put in the broadcast buffer before it returns to its select. */
  datatype State<!C> = State(
    listed: set<C>,
    members: map<C, Member>,
    buf: seq<Msg>,
    drained: seq<Msg>,
    accepted: seq<Msg>,
    pending: Option<Msg>)

  datatype Step<C> =
    | Register(c: C, event: Msg)
    | Unregister(c: C, event: Msg)
    | Broadcast
    | Flush
    | Emit(event: Msg)
    | Read(c: C)

  function Init<C>(): State<C> {
    State({}, map[], [], [], [], None)
  }

  predicate HasRoom<C>(s: State<C>) {
    |s.buf| < BROADCAST_CAPACITY
  }

  /** When a step can happen. A client value is registered once, as the handler makes a new one for
      each connection; every other condition is when the channel operation does not block. */
  predicate Enabled<C>(s: State<C>, step: Step<C>) {
    match step
    case Register(c, _) => s.pending.None? && c !in s.members
    case Unregister(_, _) => s.pending.None?
    case Broadcast => s.pending.None? && s.buf != []
    case Flush => s.pending.Some? && HasRoom(s)
    case Emit(_) => HasRoom(s)
    case Read(c) => c in s.members && s.members[c].queue.buf != []
  }

  function Leave<C>(s: State<C>, c: C, at: nat): State<C>
    requires c in s.members
  {
    var m := s.members[c];
    s.(listed := s.listed - {c}, members := s.members[c := m.(queue := m.queue.Shut(), left := Some(at))])
  }

  function Push<C>(s: State<C>, event: Msg): State<C> {
    s.(buf := s.buf + [event], accepted := s.accepted + [event])
  }

  /** One listed client meets one broadcast: it gets the message, or it is evicted when its queue is full. */
  function Meet(m: Member, msg: Msg, at: nat): Member {
    if |m.queue.buf| < CLIENT_CAPACITY then m.(queue := m.queue.Put(msg))
    else m.(queue := m.queue.Shut(), left := Some(at))
  }

  predicate Full(m: Member) {
    |m.queue.buf| >= CLIENT_CAPACITY
  }

  function Deliver<C>(s: State<C>): State<C>
    requires s.buf != []
  {
    var msg := s.buf[0];
    s.(listed := (set c | c in s.listed && c in s.members && !Full(s.members[c])),
       members := (map c | c in s.members ::
                     if c in s.listed then Meet(s.members[c], msg, |s.drained|) else s.members[c]),
       buf := s.buf[1..],
       drained := s.drained + [msg])
  }

  function Join<C>(s: State<C>, c: C): State<C> {
    s.(listed := s.listed + {c}, members := s.members[c := Member(Queue([], true, []), |s.drained|, None)])
  }

  function Drop<C>(s: State<C>, c: C): State<C> {
    if c in s.listed && c in s.members then Leave(s, c, |s.drained|) else s
  }

  function Apply<C>(s: State<C>, step: Step<C>): State<C>
    requires Enabled(s, step)
  {
    match step
    case Register(c, event) => Join(s, c).(pending := Some(event))
    case Unregister(c, event) => Drop(s, c).(pending := Some(event))
    case Broadcast => Deliver(s)
    case Flush => Push(s, s.pending.value).(pending := None)
    case Emit(event) => Push(s, event)
    case Read(c) => s.(members := s.members[c := s.members[c].(queue := s.members[c].queue.Take())])
  }

  /** The hub's goroutine puts its own event in the buffer at once when there is room. */
  function Settle<C>(s: State<C>): State<C> {
    if s.pending.Some? && HasRoom(s) then Apply(s, Flush) else s
  }

  // ---------- The invariant ----------

  /** A client's queue history is one contiguous slice of the drained broadcasts. */
  ghost predicate SliceOf(m: Member, drained: seq<Msg>) {
    && m.joined <= m.End(|drained|) <= |drained|
    && m.queue.Accepted() == drained[m.joined..m.End(|drained|)]
    && |m.queue.buf| <= CLIENT_CAPACITY
  }

  ghost predicate Inv<C>(s: State<C>) {
    && s.listed <= s.members.Keys
    && (forall c :: c in s.members ==> (c in s.listed <==> s.members[c].queue.open))
    && (forall c :: c in s.members ==> (c in s.listed <==> s.members[c].left.None?))
    && (forall c :: c in s.members ==> SliceOf(s.members[c], s.drained))
    && s.drained + s.buf == s.accepted
    && |s.buf| <= BROADCAST_CAPACITY
  }

  lemma MeetKeepsSlice(m: Member, drained: seq<Msg>, msg: Msg)
    requires SliceOf(m, drained) && m.left.None?
    ensures SliceOf(Meet(m, msg, |drained|), drained + [msg])
  {
    var more := drained + [msg];
    assert more[m.joined..|drained|] == drained[m.joined..|drained|];
    assert more[m.joined..] == drained[m.joined..] + [msg];
    assert m.queue.taken + (m.queue.buf + [msg]) == (m.queue.taken + m.queue.buf) + [msg];
  }

  lemma LeftKeepsSlice(m: Member, drained: seq<Msg>, msg: Msg)
    requires SliceOf(m, drained) && m.left.Some?
    ensures SliceOf(m, drained + [msg])
  {
    assert (drained + [msg])[m.joined..m.left.value] == drained[m.joined..m.left.value];
  }

  lemma TakeKeepsSlice(m: Member, drained: seq<Msg>)
    requires SliceOf(m, drained) && m.queue.buf != []
    ensures SliceOf(m.(queue := m.queue.Take()), drained)
  {
    var q := m.queue;
    assert (q.taken + [q.buf[0]]) + q.buf[1..] == q.taken + ([q.buf[0]] + q.buf[1..]);
    assert [q.buf[0]] + q.buf[1..] == q.buf;
  }

  lemma DeliverKeepsInv<C>(s: State<C>)
    requires Inv(s) && s.buf != []
    ensures Inv(Deliver(s))
  {
    var t := Deliver(s);
    var msg := s.buf[0];
    forall c | c in t.members
      ensures SliceOf(t.members[c], t.drained)
    {
      if c in s.listed {
        MeetKeepsSlice(s.members[c], s.drained, msg);
      } else {
        LeftKeepsSlice(s.members[c], s.drained, msg);
      }
    }
    assert s.drained + [msg] + s.buf[1..] == s.drained + s.buf;
  }

  /** Every step keeps the invariant. */
  lemma StepKeepsInv<C>(s: State<C>, step: Step<C>)
    requires Inv(s) && Enabled(s, step)
    ensures Inv(Apply(s, step))
  {
    var t := Apply(s, step);
    match step
    case Register(c, event) =>
      assert s.drained[|s.drained|..] == [];
      assert t.members[c].queue.Accepted() == [];
    case Unregister(c, event) =>
    case Broadcast =>
      DeliverKeepsInv(s);
    case Flush =>
      assert s.drained + (s.buf + [s.pending.value]) == s.accepted + [s.pending.value];
    case Emit(event) =>
      assert s.drained + (s.buf + [event]) == s.accepted + [event];
    case Read(c) =>
      TakeKeepsSlice(s.members[c], s.drained);
  }

  lemma SettleKeepsInv<C>(s: State<C>)
    requires Inv(s)
    ensures Inv(Settle(s))
  {
    if s.pending.Some? && HasRoom(s) {
      StepKeepsInv(s, Flush);
    }
  }

  // ---------- Runs ----------

  /** A run: the states passed through, and the steps taken between them. */
  ghost predicate IsRun<C>(run: seq<State<C>>, steps: seq<Step<C>>) {
    && |run| == |steps| + 1
    && run[0] == Init()
    && forall i {:trigger steps[i]} :: 0 <= i < |steps| ==> Enabled(run[i], steps[i]) && run[i + 1] == Apply(run[i], steps[i])
  }

  /** The invariant holds in every state of every run. */
  lemma {:induction false} RunKeepsInv<C>(run: seq<State<C>>, steps: seq<Step<C>>, n: nat)
    requires IsRun(run, steps) && n < |run|
    ensures Inv(run[n])
  {
    if n > 0 {
      RunKeepsInv(run, steps, n - 1);
      StepKeepsInv(run[n - 1], steps[n - 1]);
    }
  }

  /** In every reachable state a registered client's queue is open exactly while the client is listed. */
  lemma OpenIffListed<C>(run: seq<State<C>>, steps: seq<Step<C>>, n: nat, c: C)
    requires IsRun(run, steps) && n < |run| && c in run[n].members
    ensures run[n].members[c].queue.open <==> c in run[n].listed
  {
    RunKeepsInv(run, steps, n);
  }

  /** Whatever a step other than the client's own read does to a queue, it does to an open one: no message
      is put in a closed queue, and no queue is closed twice. */
  lemma OnlyOpenQueuesChange<C>(run: seq<State<C>>, steps: seq<Step<C>>, n: nat, c: C)
    requires IsRun(run, steps) && n < |steps| && c in run[n].members
    requires c in run[n + 1].members && run[n + 1].members[c].queue != run[n].members[c].queue
    ensures (steps[n].Read? && steps[n].c == c) || run[n].members[c].queue.open
    ensures run[n + 1].members[c].queue.open ==> run[n].members[c].queue.open
  {
    RunKeepsInv(run, steps, n);
  }

  /** What never changes once it is there: when a client joined, when it left, and what was drained. */
  ghost predicate Extends<C>(s: State<C>, t: State<C>) {
    && s.drained <= t.drained
    && (forall c :: c in s.members ==> c in t.members)
    && (forall c :: c in s.members ==> t.members[c].joined == s.members[c].joined)
    && (forall c :: c in s.members && s.members[c].left.Some? ==> t.members[c].left == s.members[c].left)
  }

  lemma StepExtends<C>(s: State<C>, step: Step<C>)
    requires Inv(s) && Enabled(s, step)
    ensures Extends(s, Apply(s, step))
  {
  }

  lemma {:induction false} RunExtends<C>(run: seq<State<C>>, steps: seq<Step<C>>, i: nat, j: nat)
    requires IsRun(run, steps) && i <= j < |run|
    ensures Extends(run[i], run[j])
    decreases j
  {
    if i < j {
      RunExtends(run, steps, i, j - 1);
      RunKeepsInv(run, steps, j - 1);
      StepExtends(run[j - 1], steps[j - 1]);
    }
  }

  /** No gaps: at every later point j of every run, while a client that step i registered is listed,
      what it has received plus what is queued for it is exactly the slice of drained broadcasts from
      its registration up to now. */
  lemma NoGapWhileListed<C>(run: seq<State<C>>, steps: seq<Step<C>>, i: nat, j: nat)
    requires IsRun(run, steps) && i < j < |run|
    requires steps[i].Register? && steps[i].c in run[j].listed
    ensures run[i].drained <= run[j].drained
    ensures steps[i].c in run[j].members
    ensures run[j].members[steps[i].c].queue.Accepted() == run[j].drained[|run[i].drained|..]
  {
    RunExtends(run, steps, i, j);
    RunExtends(run, steps, i + 1, j);
    RunKeepsInv(run, steps, j);
  }

  /** The two ways out: a client's own unregistration, and a broadcast that finds its queue full. */
  predicate Leaves<C(==)>(s: State<C>, step: Step<C>, c: C) {
    || (step.Unregister? && step.c == c)
    || (step.Broadcast? && c in s.members && |s.members[c].queue.buf| >= 256)
  }

  /** Each of the two takes a listed client off the list, and nothing else does. */
  lemma OnlyTwoWaysOut<C>(s: State<C>, step: Step<C>, c: C)
    requires Inv(s) && Enabled(s, step) && c in s.listed
    ensures c !in Apply(s, step).listed <==>
            (step.Unregister? && step.c == c) || (step.Broadcast? && |s.members[c].queue.buf| >= 256)
  {
  }

  lemma StepLists<C>(s: State<C>, step: Step<C>, c: C)
    requires Inv(s) && Enabled(s, step)
    ensures c in Apply(s, step).listed <==> (step.Register? && step.c == c) || (c in s.listed && !Leaves(s, step, c))
  {
    if c in s.listed {
      OnlyTwoWaysOut(s, step, c);
    }
  }

  /** The client was registered at some step before n and has not left since. */
  ghost predicate Stayed<C>(run: seq<State<C>>, steps: seq<Step<C>>, n: nat, c: C)
    requires n < |run| && n <= |steps|
  {
    exists i {:trigger steps[i]} :: 0 <= i < n && StayedFrom(run, steps, i, n, c)
  }

  ghost predicate StayedFrom<C>(run: seq<State<C>>, steps: seq<Step<C>>, i: nat, n: nat, c: C)
    requires n < |run| && i < n <= |steps|
  {
    && steps[i].Register? && steps[i].c == c
    && forall k {:trigger Leaves(run[k], steps[k], c)} :: i < k < n ==> !Leaves(run[k], steps[k], c)
  }

  lemma StayedNext<C>(run: seq<State<C>>, steps: seq<Step<C>>, n: nat, c: C)
    requires n + 1 < |run| && n < |steps|
    ensures Stayed(run, steps, n + 1, c) <==>
            (steps[n].Register? && steps[n].c == c) || (Stayed(run, steps, n, c) && !Leaves(run[n], steps[n], c))
  {
    if Stayed(run, steps, n, c) && !Leaves(run[n], steps[n], c) {
      var i :| 0 <= i < n && StayedFrom(run, steps, i, n, c);
      assert StayedFrom(run, steps, i, n + 1, c);
      assert steps[i].Register?;
    }
    if Stayed(run, steps, n + 1, c) {
      var i :| 0 <= i < n + 1 && StayedFrom(run, steps, i, n + 1, c);
      if i < n {
        assert StayedFrom(run, steps, i, n, c);
        assert steps[i].Register?;
      }
    }
    if steps[n].Register? && steps[n].c == c {
      assert StayedFrom(run, steps, n, n + 1, c);
    }
  }

  /** In every state of every run, exactly those clients are listed, and have their queues open, that were
      registered and have since neither unregistered nor been found with a full queue. */
  lemma {:induction false} ListedIffStayed<C>(run: seq<State<C>>, steps: seq<Step<C>>, n: nat, c: C)
    requires IsRun(run, steps) && n < |run|
    ensures c in run[n].listed <==> Stayed(run, steps, n, c)
  {
    if n > 0 {
      ListedIffStayed(run, steps, n - 1, c);
      RunKeepsInv(run, steps, n - 1);
      StepLists(run[n - 1], steps[n - 1], c);
      StayedNext(run, steps, n - 1, c);
      assert run[n] == Apply(run[n - 1], steps[n - 1]);
    }
  }

  /** After its unregistration a client is unlisted and its queue closed at every later point of the run. */
  lemma {:induction false} UnregisterIsFinal<C>(run: seq<State<C>>, steps: seq<Step<C>>, k: nat, j: nat)
    requires IsRun(run, steps) && k < j < |run|
    requires steps[k].Unregister? && steps[k].c in run[k].members
    ensures steps[k].c !in run[j].listed
    ensures steps[k].c in run[j].members && !run[j].members[steps[k].c].queue.open
    decreases j
  {
    RunExtends(run, steps, k, j);
    RunExtends(run, steps, k, j - 1);
    RunKeepsInv(run, steps, j - 1);
    StepLists(run[j - 1], steps[j - 1], steps[k].c);
    assert run[j] == Apply(run[j - 1], steps[j - 1]);
    if j > k + 1 {
      UnregisterIsFinal(run, steps, k, j - 1);
    }
    OpenIffListed(run, steps, j, steps[k].c);
  }

  /** Once a step k has taken a client off the list, the slice is closed at that point for good and the
      queue stays closed. A message that found the queue full is not part of the slice. */
  lemma NoGapAfterLeaving<C>(run: seq<State<C>>, steps: seq<Step<C>>, i: nat, k: nat, j: nat)
    requires IsRun(run, steps) && i < k < j < |run|
    requires steps[i].Register?
    requires steps[i].c in run[k].listed && steps[i].c !in run[k + 1].listed
    ensures run[i].drained <= run[k].drained <= run[j].drained
    ensures steps[i].c in run[j].members && steps[i].c !in run[j].listed
    ensures !run[j].members[steps[i].c].queue.open
    ensures run[j].members[steps[i].c].queue.Accepted() == run[k].drained[|run[i].drained|..]
  {
    var c := steps[i].c;
    RunExtends(run, steps, i + 1, j);
    assert run[i].drained <= run[k].drained by {
      RunExtends(run, steps, i, k);
    }
    assert run[k].drained <= run[j].drained by {
      RunExtends(run, steps, k, j);
    }
    assert c in run[k + 1].members && run[k + 1].members[c].left == Some(|run[k].drained|) by {
      RunKeepsInv(run, steps, k);
      RunExtends(run, steps, i + 1, k);
      LeavesNow(run[k], steps[k], c);
    }
    RunExtends(run, steps, k + 1, j);
    RunKeepsInv(run, steps, j);
    SliceUpTo(run[j].members[c], run[j].drained, |run[i].drained|, run[k].drained);
  }

  lemma SliceUpTo(m: Member, drained: seq<Msg>, from: nat, before: seq<Msg>)
    requires SliceOf(m, drained) && before <= drained && from <= |before|
    requires m.joined == from && m.left == Some(|before|)
    ensures m.queue.Accepted() == before[from..]
  {
    assert drained[from..|before|] == before[from..];
  }

  lemma LeavesNow<C>(s: State<C>, step: Step<C>, c: C)
    requires Inv(s) && Enabled(s, step)
    requires c in s.listed && c !in Apply(s, step).listed
    ensures c in Apply(s, step).members && Apply(s, step).members[c].left == Some(|s.drained|)
  {
  }

  // ---------- What is broadcast ----------

  /** The event of the last registration or unregistration, if it still waits for its place. */
  function Waiting<C>(steps: seq<Step<C>>): Option<Msg> {
    if steps == [] then None
    else
      match steps[|steps| - 1]
      case Register(_, event) => Some(event)
      case Unregister(_, event) => Some(event)
      case Flush => None
      case _ => Waiting(steps[..|steps| - 1])
  }

  /** The events in the order in which they were put in the buffer. */
  function Entered<C>(steps: seq<Step<C>>): seq<Msg> {
    if steps == [] then []
    else
      var before := steps[..|steps| - 1];
      match steps[|steps| - 1]
      case Emit(event) => Entered(before) + [event]
      case Flush => Entered(before) + if Waiting(before).Some? then [Waiting(before).value] else []
      case _ => Entered(before)
  }

  function Drains<C>(steps: seq<Step<C>>): nat {
    if steps == [] then 0
    else Drains(steps[..|steps| - 1]) + if steps[|steps| - 1].Broadcast? then 1 else 0
  }

  lemma StepBroadcasts<C>(s: State<C>, step: Step<C>)
    requires Inv(s) && Enabled(s, step)
    ensures
      var t := Apply(s, step);
      && t.drained + t.buf ==
           s.drained + s.buf + (match step
                                case Emit(event) => [event]
                                case Flush => [s.pending.value]
                                case _ => [])
      && t.pending == (match step
                       case Register(_, event) => Some(event)
                       case Unregister(_, event) => Some(event)
                       case Flush => None
                       case _ => s.pending)
      && |t.drained| == |s.drained| + if step.Broadcast? then 1 else 0
  {
    var t := Apply(s, step);
    if step.Broadcast? {
      assert s.drained + [s.buf[0]] + s.buf[1..] == s.drained + s.buf;
    }
  }

  /** In every state of every run the drained broadcasts are the first ones, one for each broadcast step, of
      the events that were sent: those of other goroutines, and one for each registration and
      unregistration, which enters when there is room. The rest are in the buffer, in order. */
  lemma {:induction false} EverySentEventIsBroadcast<C>(run: seq<State<C>>, steps: seq<Step<C>>, n: nat)
    requires IsRun(run, steps) && n < |run|
    ensures run[n].drained + run[n].buf == Entered(steps[..n])
    ensures run[n].pending == Waiting(steps[..n])
    ensures |run[n].drained| == Drains(steps[..n])
  {
    if n > 0 {
      EverySentEventIsBroadcast(run, steps, n - 1);
      RunKeepsInv(run, steps, n - 1);
      StepBroadcasts(run[n - 1], steps[n - 1]);
      assert run[n] == Apply(run[n - 1], steps[n - 1]);
      assert steps[..n][..n - 1] == steps[..n - 1];
    }
  }

  function Reads<C(==)>(steps: seq<Step<C>>, c: C): nat {
    if steps == [] then 0
    else Reads(steps[..|steps| - 1], c) + if steps[|steps| - 1].Read? && steps[|steps| - 1].c == c then 1 else 0
  }

  lemma StepReads<C>(s: State<C>, step: Step<C>, c: C)
    requires Enabled(s, step) && c in s.members
    ensures c in Apply(s, step).members
    ensures |Apply(s, step).members[c].queue.taken| ==
            |s.members[c].queue.taken| + if step.Read? && step.c == c then 1 else 0
  {
  }

  /** Each read takes one message, so that what a client has received is the beginning, one message for each
      read, of the slice that was put in its queue. */
  lemma {:induction false} OneMessageARead<C>(run: seq<State<C>>, steps: seq<Step<C>>, n: nat, c: C)
    requires IsRun(run, steps) && n < |run|
    ensures c in run[n].members ==> |run[n].members[c].queue.taken| == Reads(steps[..n], c)
    ensures c !in run[n].members ==> Reads(steps[..n], c) == 0
    ensures c in run[n].members ==> run[n].members[c].queue.taken <= run[n].members[c].queue.Accepted()
  {
    if n > 0 {
      OneMessageARead(run, steps, n - 1, c);
      assert steps[..n][..n - 1] == steps[..n - 1];
      assert run[n] == Apply(run[n - 1], steps[n - 1]);
      if c in run[n - 1].members {
        StepReads(run[n - 1], steps[n - 1], c);
      }
    }
  }

  // ---------- Progress ----------

  /** The hub's goroutine waits to put its own event in the full buffer that only it empties. */
  predicate Blocked<C>(s: State<C>) {
    s.pending.Some? && |s.buf| == BROADCAST_CAPACITY
  }

  /** What to look at before a step: the arms that send an event of the hub's own with the buffer full, and
      an emission that takes the last place while such an event waits. */
  predicate Blocking<C>(s: State<C>, step: Step<C>) {
    match step
    case Register(_, _) => |s.buf| == BROADCAST_CAPACITY
    case Unregister(_, _) => |s.buf| == BROADCAST_CAPACITY
    case Emit(_) => s.pending.Some? && |s.buf| == BROADCAST_CAPACITY - 1
    case _ => false
  }

  /** Those steps, and no others, lead to the blocked state. */
  lemma BlocksIffBlocking<C>(s: State<C>, step: Step<C>)
    requires Inv(s) && !Blocked(s) && Enabled(s, step)
    ensures Blocked(Apply(s, step)) <==> Blocking(s, step)
  {
  }

  lemma BlockedStays<C>(s: State<C>, step: Step<C>)
    requires Inv(s) && Blocked(s) && Enabled(s, step)
    ensures step.Read? && Blocked(Apply(s, step)) && Apply(s, step).drained == s.drained
  {
  }

  /** Once blocked, the hub stays blocked at every later point of every run and drains nothing more,
      whatever the others do; all that is left to happen is that clients read their queues. */
  lemma {:induction false} BlockedForever<C>(run: seq<State<C>>, steps: seq<Step<C>>, i: nat, j: nat)
    requires IsRun(run, steps) && i <= j < |run|
    requires Blocked(run[i])
    ensures Blocked(run[j]) && run[j].drained == run[i].drained
    ensures forall k :: i <= k < j ==> steps[k].Read?
    decreases j
  {
    if i < j {
      BlockedForever(run, steps, i, j - 1);
      RunKeepsInv(run, steps, j - 1);
      BlockedStays(run[j - 1], steps[j - 1]);
    }
  }

  /** Some step before point n of the run was a blocking one. */
  ghost predicate TookBlocking<C>(run: seq<State<C>>, steps: seq<Step<C>>, n: nat)
    requires n < |run| && n <= |steps|
  {
    exists k {:trigger Blocking(run[k], steps[k])} :: 0 <= k < n && Blocking(run[k], steps[k])
  }

  lemma BlockedNext<C>(s: State<C>, step: Step<C>)
    requires Inv(s) && Enabled(s, step)
    ensures Blocked(Apply(s, step)) <==> Blocked(s) || Blocking(s, step)
  {
    if Blocked(s) {
      BlockedStays(s, step);
    } else {
      BlocksIffBlocking(s, step);
    }
  }

  lemma {:induction false} BlockedIffTookBlocking<C>(run: seq<State<C>>, steps: seq<Step<C>>, n: nat)
    requires IsRun(run, steps) && n < |run|
    ensures Blocked(run[n]) <==> TookBlocking(run, steps, n)
  {
    if n > 0 {
      BlockedIffTookBlocking(run, steps, n - 1);
      RunKeepsInv(run, steps, n - 1);
      BlockedNext(run[n - 1], steps[n - 1]);
      assert run[n] == Apply(run[n - 1], steps[n - 1]);
    }
  }

  /** At every point of every run the hub's goroutine can take a step of its own, at its select or with its
      pending event, if and only if no blocking step was taken before. */
  lemma HubMovesUnlessBlocked<C>(run: seq<State<C>>, steps: seq<Step<C>>, n: nat, c: C, event: Msg)
    requires IsRun(run, steps) && n < |run|
    ensures Enabled(run[n], Unregister(c, event)) || Enabled(run[n], Flush) <==> !TookBlocking(run, steps, n)
  {
    RunKeepsInv(run, steps, n);
    BlockedIffTookBlocking(run, steps, n);
  }

  ghost predicate AllBelow(s: State<nat>, n: nat) {
    forall c :: c in s.members ==> c < n
  }

  /** The hub alone can reach that state: registrations in a row, with no broadcast drained between
      them, fill the buffer, and the next one blocks. */
  lemma BlockingIsReachable()
    ensures exists run: seq<State<nat>>, steps: seq<Step<nat>> ::
              IsRun(run, steps) && Blocked(run[|run| - 1])
  {
    var run: seq<State<nat>>, steps: seq<Step<nat>> := [Init()], [];
    var n := 0;
    while n < BROADCAST_CAPACITY
      invariant 0 <= n <= BROADCAST_CAPACITY
      invariant IsRun(run, steps)
      invariant run[|run| - 1].pending.None? && |run[|run| - 1].buf| == n
      invariant AllBelow(run[|run| - 1], n)
    {
      run, steps := Extend(run, steps, Register(n, UserConnected("user", "client")));
      run, steps := Extend(run, steps, Flush);
      n := n + 1;
    }
    run, steps := Extend(run, steps, Register(n, UserConnected("user", "client")));
  }

  lemma Extend<C>(run: seq<State<C>>, steps: seq<Step<C>>, step: Step<C>)
    returns (run': seq<State<C>>, steps': seq<Step<C>>)
    requires IsRun(run, steps) && Enabled(run[|run| - 1], step)
    ensures IsRun(run', steps')
    ensures run'[|run'| - 1] == Apply(run[|run| - 1], step)
  {
    run', steps' := run + [Apply(run[|run| - 1], step)], steps + [step];
  }
}
