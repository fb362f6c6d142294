/** The registry of live connections: each user's list of clients. `C` identifies clients. */
module Registry {
  import opened Store

  type Registry<C> = map<string, seq<C>>

  /** A missing user reads as the empty list. */
  function Lookup<C>(reg: Registry<C>, user: string): seq<C> {
    if user in reg then reg[user] else []
  }

  function Add<C>(reg: Registry<C>, user: string, c: C): Registry<C> {
    reg[user := Lookup(reg, user) + [c]]
  }

  /** The list without the first occurrence of `c`. */
  function Without<C(==)>(s: seq<C>, c: C): seq<C> {
    if s == [] then [] else if s[0] == c then s[1..] else [s[0]] + Without(s[1..], c)
  }

  function Remove<C(==)>(reg: Registry<C>, user: string, c: C): Registry<C> {
    var rest := Without(Lookup(reg, user), c);
    if rest == [] then reg - {user} else reg[user := rest]
  }

  function Listed<C(==)>(reg: Registry<C>): set<C> {
    set u, c | u in reg && c in reg[u] :: c
  }

  /** Every list is non-empty, has no duplicates and holds only its own user's clients. */
  ghost predicate Wellformed<C(!new)>(reg: Registry<C>, owner: map<C, string>) {
    forall u :: u in reg ==>
      && reg[u] != []
      && NoDuplicates(reg[u])
      && forall c :: c in reg[u] ==> c in owner && owner[c] == u
  }

  /** The splice takes out the target alone and keeps the order of the rest. */
  lemma {:induction false} WithoutSplices<C>(s: seq<C>, i: nat)
    requires i < |s| && forall j :: 0 <= j < i ==> s[j] != s[i]
    ensures Without(s, s[i]) == s[..i] + s[i + 1..]
  {
    if i > 0 {
      WithoutSplices(s[1..], i - 1);
      assert s[1..][..i - 1] == s[1..i];
      assert [s[0]] + s[1..i] == s[..i];
    }
  }

  lemma {:induction false} WithoutAbsent<C>(s: seq<C>, c: C)
    requires c !in s
    ensures Without(s, c) == s
  {
    if s != [] {
      WithoutAbsent(s[1..], c);
      assert s == [s[0]] + s[1..];
    }
  }

  lemma {:induction false} WithoutMembers<C>(s: seq<C>, c: C)
    requires NoDuplicates(s)
    ensures NoDuplicates(Without(s, c))
    ensures forall x :: x in Without(s, c) <==> x in s && x != c
    ensures forall k :: 0 <= k < |Without(s, c)| ==> Without(s, c)[k] in s && Without(s, c)[k] != c
  {
    if s != [] {
      assert s == [s[0]] + s[1..];
      assert s[0] !in s[1..];
      WithoutMembers(s[1..], c);
    }
  }

  lemma AddKeeps<C(!new)>(reg: Registry<C>, owner: map<C, string>, user: string, c: C)
    requires Wellformed(reg, owner) && c !in owner
    ensures Wellformed(Add(reg, user, c), owner[c := user])
    ensures Listed(Add(reg, user, c)) == Listed(reg) + {c}
  {
    var after := Add(reg, user, c);
    assert c in after[user];
    forall x ensures x in Listed(after) <==> x in Listed(reg) + {c} {
      if x in Listed(reg) {
        var u :| u in reg && x in reg[u];
        assert x in after[u];
      }
    }
  }

  lemma RemoveKeeps<C(!new)>(reg: Registry<C>, owner: map<C, string>, user: string, c: C)
    requires Wellformed(reg, owner)
    requires c in owner && owner[c] == user
    ensures Wellformed(Remove(reg, user, c), owner)
    ensures Listed(Remove(reg, user, c)) == Listed(reg) - {c}
  {
    var after := Remove(reg, user, c);
    WithoutMembers(Lookup(reg, user), c);
    forall x ensures x in Listed(after) <==> x in Listed(reg) - {c} {
      if x in Listed(reg) - {c} {
        var u :| u in reg && x in reg[u];
        if u == user {
          assert x in Without(Lookup(reg, user), c);
        }
        assert u in after && x in after[u];
      }
    }
  }

  /** Whether a client is listed is whether its own user's list holds it. */
  lemma ListedUnderOwner<C(!new)>(reg: Registry<C>, owner: map<C, string>, c: C)
    requires Wellformed(reg, owner) && c in owner
    ensures c in Listed(reg) <==> c in Lookup(reg, owner[c])
  {
    if c in Lookup(reg, owner[c]) {
      assert owner[c] in reg && c in reg[owner[c]];
    }
  }

  // ---------- Runs ----------

  datatype Event = Register(user: string, c: nat) | Unregister(user: string, c: nat)

  /** Each client is registered once, under its own user, before it is unregistered. */
  ghost predicate IsEventHistory(events: seq<Event>)
    decreases |events|, 0
  {
    events != [] ==>
      var before, e := events[..|events| - 1], events[|events| - 1];
      && IsEventHistory(before)
      && (e.Register? ==> e.c !in Owners(before))
      && (e.Unregister? ==> e.c in Owners(before) && Owners(before)[e.c] == e.user)
  }

  function Owners(events: seq<Event>): map<nat, string>
    decreases |events|, 1
  {
    if events == [] then map[]
    else
      var before, e := events[..|events| - 1], events[|events| - 1];
      if e.Register? then Owners(before)[e.c := e.user] else Owners(before)
  }

  function Replay(events: seq<Event>): Registry<nat> {
    if events == [] then map[]
    else
      var before, e := events[..|events| - 1], events[|events| - 1];
      if e.Register? then Add(Replay(before), e.user, e.c) else Remove(Replay(before), e.user, e.c)
  }

  function Registered(events: seq<Event>): set<nat> {
    set i | 0 <= i < |events| && events[i].Register? :: events[i].c
  }

  function Unregistered(events: seq<Event>): set<nat> {
    set i | 0 <= i < |events| && events[i].Unregister? :: events[i].c
  }

  /** After any run the lists are well formed and hold exactly the clients that were registered and not
      unregistered; unregistering a client a second time changes nothing. */
  lemma {:induction false} RegistryIsExact(events: seq<Event>)
    requires IsEventHistory(events)
    ensures Wellformed(Replay(events), Owners(events))
    ensures Owners(events).Keys == Registered(events)
    ensures Listed(Replay(events)) == Registered(events) - Unregistered(events)
    ensures Unregistered(events) <= Registered(events)
  {
    if events != [] {
      var before, e := events[..|events| - 1], events[|events| - 1];
      RegistryIsExact(before);
      assert events == before + [e];
      LastEvent(before, e);
      if e.Register? {
        AddKeeps(Replay(before), Owners(before), e.user, e.c);
      } else {
        RemoveKeeps(Replay(before), Owners(before), e.user, e.c);
      }
    }
  }

  lemma LastEvent(before: seq<Event>, e: Event)
    ensures Registered(before + [e]) == Registered(before) + if e.Register? then {e.c} else {}
    ensures Unregistered(before + [e]) == Unregistered(before) + if e.Unregister? then {e.c} else {}
  {
    var events := before + [e];
    assert events[|before|] == e;
    forall i | 0 <= i < |before| ensures events[i] == before[i] {
    }
    forall c ensures c in Registered(events) <==> c in Registered(before) + (if e.Register? then {e.c} else {}) {
      if c in Registered(before) {
        var i :| 0 <= i < |before| && before[i].Register? && before[i].c == c;
        assert events[i].Register?;
      }
    }
    forall c ensures c in Unregistered(events) <==> c in Unregistered(before) + (if e.Unregister? then {e.c} else {}) {
      if c in Unregistered(before) {
        var i :| 0 <= i < |before| && before[i].Unregister? && before[i].c == c;
        assert events[i].Unregister?;
      }
    }
  }

  /** The clients that were registered for a user, oldest first. */
  function Arrivals(events: seq<Event>, user: string): seq<nat> {
    if events == [] then []
    else
      var e := events[|events| - 1];
      Arrivals(events[..|events| - 1], user) + if e.Register? && e.user == user then [e.c] else []
  }

  /** The clients that are not in `gone`, in the same order. */
  function Staying(s: seq<nat>, gone: set<nat>): seq<nat> {
    if s == [] then []
    else
      var c := s[|s| - 1];
      Staying(s[..|s| - 1], gone) + if c in gone then [] else [c]
  }

  lemma {:induction false} ArrivalsAreOwned(events: seq<Event>, user: string)
    requires IsEventHistory(events)
    ensures NoDuplicates(Arrivals(events, user))
    ensures forall c :: c in Arrivals(events, user) ==> c in Owners(events) && Owners(events)[c] == user
  {
    if events != [] {
      ArrivalsAreOwned(events[..|events| - 1], user);
    }
  }

  lemma {:induction false} StayingMembers(s: seq<nat>, gone: set<nat>)
    ensures forall c :: c in Staying(s, gone) <==> c in s && c !in gone
  {
    if s != [] {
      StayingMembers(s[..|s| - 1], gone);
      assert s == s[..|s| - 1] + [s[|s| - 1]];
    }
  }

  lemma {:induction false} WithoutSnoc(s: seq<nat>, x: nat, c: nat)
    ensures Without(s + [x], c) == if c in s then Without(s, c) + [x] else if x == c then s else s + [x]
  {
    if s == [] {
      assert [x][1..] == [] && s + [x] == [x];
    } else {
      assert s == [s[0]] + s[1..];
      assert (s + [x])[1..] == s[1..] + [x];
      if s[0] != c {
        WithoutSnoc(s[1..], x, c);
      }
    }
  }

  lemma StayingSnoc(s: seq<nat>, x: nat, gone: set<nat>)
    ensures Staying(s + [x], gone) == if x in gone then Staying(s, gone) else Staying(s, gone) + [x]
  {
    assert (s + [x])[..|s|] == s;
  }

  /** One more client gone is one client less in the list. */
  lemma {:induction false} OneMoreGone(s: seq<nat>, gone: set<nat>, c: nat)
    requires NoDuplicates(s)
    ensures Staying(s, gone + {c}) == Without(Staying(s, gone), c)
  {
    if s != [] {
      var rest, x := s[..|s| - 1], s[|s| - 1];
      assert s == rest + [x];
      OneMoreGone(rest, gone, c);
      StayingSnoc(rest, x, gone);
      StayingSnoc(rest, x, gone + {c});
      WithoutSnoc(Staying(rest, gone), x, c);
      if c !in Staying(rest, gone) {
        WithoutAbsent(Staying(rest, gone), c);
      } else {
        StayingMembers(rest, gone);
      }
    }
  }

  /** Adding and removing touch one user's list alone. */
  lemma OneListChanges<C>(reg: Registry<C>, user: string, other: string, c: C)
    ensures Lookup(Add(reg, user, c), other) == Lookup(reg, other) + if user == other then [c] else []
    ensures Lookup(Remove(reg, user, c), other) ==
            if user == other then Without(Lookup(reg, other), c) else Lookup(reg, other)
  {
  }

  /** After any run each user's list is exactly the user's registered clients, oldest first, without those
      that were unregistered. */
  lemma {:induction false} ListIsArrivalOrder(events: seq<Event>, user: string)
    requires IsEventHistory(events)
    ensures Lookup(Replay(events), user) == Staying(Arrivals(events, user), Unregistered(events))
  {
    if events != [] {
      var before, e := events[..|events| - 1], events[|events| - 1];
      ListIsArrivalOrder(before, user);
      OneListChanges(Replay(before), e.user, user, e.c);
      assert events == before + [e];
      LastEvent(before, e);
      LastArrival(before, e, user);
    }
  }

  lemma LastArrival(before: seq<Event>, e: Event, user: string)
    requires IsEventHistory(before + [e])
    ensures
      var was := Staying(Arrivals(before, user), Unregistered(before));
      Staying(Arrivals(before + [e], user), Unregistered(before + [e])) ==
      if e.user != user then was else if e.Register? then was + [e.c] else Without(was, e.c)
  {
    assert (before + [e])[..|before|] == before;
    RegistryIsExact(before);
    ArrivalsAreOwned(before, user);
    LastEvent(before, e);
    var arrivals, gone := Arrivals(before, user), Unregistered(before);
    if e.Register? {
      assert gone + {} == gone;
      StayingSnoc(arrivals, e.c, gone);
      assert arrivals + [] == arrivals;
    } else {
      assert arrivals + [] == arrivals;
      OneMoreGone(arrivals, gone, e.c);
      if e.user != user {
        StayingMembers(arrivals, gone);
        WithoutAbsent(Staying(arrivals, gone), e.c);
      }
    }
  }

  // ---------- The clients of several users, as a broadcast loops over them ----------

  /** The clients of the named users, user by user. */
  function ClientsOf<C>(reg: Registry<C>, users: seq<string>): seq<C> {
    if users == [] then [] else Lookup(reg, users[0]) + ClientsOf(reg, users[1..])
  }

  lemma {:induction false} ClientsOfMembers<C(!new)>(reg: Registry<C>, users: seq<string>, c: C)
    ensures c in ClientsOf(reg, users) <==> exists u :: u in users && c in Lookup(reg, u)
  {
    if users != [] {
      ClientsOfMembers(reg, users[1..], c);
      assert users == [users[0]] + users[1..];
      assert users[0] in users;
    }
  }

  lemma AppendDistinct<C(!new)>(a: seq<C>, b: seq<C>)
    requires NoDuplicates(a) && NoDuplicates(b)
    requires forall c :: c in a ==> c !in b
    ensures NoDuplicates(a + b)
  {
    forall i, j | 0 <= i < j < |a + b| ensures (a + b)[i] != (a + b)[j] {
      if i < |a| <= j {
        assert a[i] in a && b[j - |a|] in b;
      }
    }
  }

  /** Distinct users have distinct clients, so the loop meets no client twice. */
  lemma {:induction false} ClientsOfDistinct<C(!new)>(reg: Registry<C>, owner: map<C, string>, users: seq<string>)
    requires Wellformed(reg, owner) && NoDuplicates(users)
    ensures NoDuplicates(ClientsOf(reg, users))
  {
    if users != [] {
      var rest := ClientsOf(reg, users[1..]);
      ClientsOfDistinct(reg, owner, users[1..]);
      forall c | c in Lookup(reg, users[0])
        ensures c !in rest
      {
        ClientsOfMembers(reg, users[1..], c);
        assert users[0] !in users[1..];
      }
      AppendDistinct(Lookup(reg, users[0]), rest);
    }
  }
}
