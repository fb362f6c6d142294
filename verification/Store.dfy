/** The tables of the messaging service and the statements that run on them. Each statement, and the
    one transaction, is atomic. A missing value is SQL's NULL. */
module Store {
  import opened Channels
  import Strings

  datatype ChannelRow = ChannelRow(name: Option<string>, kind: Option<string>)

  datatype Message = Message(
    id: string,
    channelId: string,
    senderId: string,
    timestamp: int,
    kind: int,
    content: string,
    nonce: string,
    signature: string)

  /** Primary keys are map keys and set members. */
  datatype Db = Db(
    users: set<string>,
    channels: map<string, ChannelRow>,
    members: set<(string, string)>,
    messages: map<string, Message>)

  datatype Error = Missing | Forbidden | Failed

  datatype Result<+T> = Ok(value: T) | Err(error: Error)

  // ---------- Statements ----------

  /** `SELECT type`: no row is its own error, and NULL does not scan into a string. */
  function ChannelType(db: Db, id: string): Result<string> {
    if id !in db.channels then Err(Missing)
    else if db.channels[id].kind.None? then Err(Failed)
    else Ok(db.channels[id].kind.value)
  }

  predicate IsMember(db: Db, channel: string, user: string) {
    (channel, user) in db.members
  }

  /** The answer to `SELECT user_id`, in whatever order the rows come. */
  ghost predicate IsMemberList(db: Db, channel: string, rows: seq<string>) {
    && NoDuplicates(rows)
    && forall u :: u in rows <==> IsMember(db, channel, u)
  }

  ghost predicate NoDuplicates<T>(s: seq<T>) {
    forall i, j :: 0 <= i < j < |s| ==> s[i] != s[j]
  }

  function InsertChannel(db: Db, id: string, row: ChannelRow): Result<Db> {
    if id in db.channels then Err(Failed) else Ok(db.(channels := db.channels[id := row]))
  }

  function InsertMember(db: Db, channel: string, user: string): Result<Db> {
    if IsMember(db, channel, user) then Err(Failed) else Ok(db.(members := db.members + {(channel, user)}))
  }

  function InsertMessage(db: Db, m: Message): Result<Db> {
    if m.id in db.messages then Err(Failed) else Ok(db.(messages := db.messages[m.id := m]))
  }

  /** The transaction that creates a direct-message channel: three inserts, or none of them. */
  function InsertDm(db: Db, id: string, u1: string, u2: string): Result<Db> {
    match InsertChannel(db, id, ChannelRow(Some("Direct Message"), Some("dm")))
    case Err(e) => Err(e)
    case Ok(db1) =>
      match InsertMember(db1, id, u1)
      case Err(e) => Err(e)
      case Ok(db2) => InsertMember(db2, id, u2)
  }

  /** The three inserts succeed together exactly when none of the keys is taken. */
  lemma InsertDmOutcome(db: Db, id: string, u1: string, u2: string)
    ensures InsertDm(db, id, u1, u2).Ok? <==>
            id !in db.channels && !IsMember(db, id, u1) && !IsMember(db, id, u2) && u1 != u2
    ensures InsertDm(db, id, u1, u2).Ok? ==>
              InsertDm(db, id, u1, u2).value ==
              db.(channels := db.channels[id := ChannelRow(Some("Direct Message"), Some("dm"))],
                  members := db.members + {(id, u1), (id, u2)})
  {
    if InsertDm(db, id, u1, u2).Ok? {
      assert db.members + {(id, u1)} + {(id, u2)} == db.members + {(id, u1), (id, u2)};
    }
  }

  // ---------- Access ----------

  /** What `authorizeChannelAccess` answers. */
  function Access(db: Db, user: string, channel: string): Result<()> {
    match ChannelType(db, channel)
    case Err(e) => Err(e)
    case Ok(kind) =>
      if kind == "public" then Ok(())
      else if IsMember(db, channel, user) then Ok(()) else Err(Forbidden)
  }

  predicate Authorised(db: Db, user: string, channel: string) {
    Access(db, user, channel).Ok?
  }

  /** Who may use a channel, and which error anybody else gets. */
  lemma AccessMeaning(db: Db, user: string, channel: string)
    ensures Access(db, user, channel) == Ok(()) <==>
            channel in db.channels && db.channels[channel].kind.Some? &&
            (db.channels[channel].kind == Some("public") || (channel, user) in db.members)
    ensures Access(db, user, channel) == Err(Missing) <==> channel !in db.channels
    ensures Access(db, user, channel) == Err(Failed) <==>
            channel in db.channels && db.channels[channel].kind == None
    ensures Access(db, user, channel) == Err(Forbidden) <==>
            channel in db.channels && db.channels[channel].kind.Some? &&
            db.channels[channel].kind != Some("public") && (channel, user) !in db.members
  {
  }

  /** Rows are only added: existing channels keep their row, and members and messages stay. */
  ghost predicate Grows(before: Db, after: Db) {
    && before.users <= after.users
    && (forall c :: c in before.channels ==> c in after.channels && after.channels[c] == before.channels[c])
    && before.members <= after.members
    && (forall m :: m in before.messages ==> m in after.messages && after.messages[m] == before.messages[m])
  }

  lemma AccessGrows(before: Db, after: Db, user: string, channel: string)
    requires Grows(before, after) && Authorised(before, user, channel)
    ensures Authorised(after, user, channel)
  {
  }

  // ---------- Direct messages and requested channels ----------

  /** `findOrCreateDMChannel` with nothing else running. */
  function FindOrCreateDm(db: Db, u1: string, u2: string): (Result<string>, Db) {
    var id := DmId(u1, u2);
    if id in db.channels then (Ok(id), db)
    else
      match InsertDm(db, id, u1, u2)
      case Err(e) => (Err(e), db)
      case Ok(after) => (Ok(id), after)
  }

  /** `resolveRequestedChannel` with nothing else running. */
  function Resolve(db: Db, sender: string, requested: string): (Result<string>, Db) {
    if requested == "" then (Err(Missing), db)
    else
      match ChannelType(db, requested)
      case Ok(_) => (Ok(requested), db)
      case Err(e) =>
        if e != Missing then (Err(e), db)
        else if requested !in db.users then (Err(Missing), db)
        else if requested == sender then (Err(Forbidden), db)
        else FindOrCreateDm(db, sender, requested)
  }

  /** What a requested target leads to. An existing channel stands for itself, whatever users there are; a
      user stands for the pair's channel, which is created when it is not there; and each error has its
      exact occasion. Tables change only by the three rows of a new pair. */
  lemma ResolveMeaning(db: Db, sender: string, requested: string)
    ensures
      var (r, after) := Resolve(db, sender, requested);
      var pair := DmId(sender, requested);
      var named := requested != "" && requested !in db.channels && requested in db.users && requested != sender;
      var untaken := !exists u :: (pair, u) in db.members && (u == sender || u == requested);
      && (requested != "" && requested in db.channels && db.channels[requested].kind.Some? ==> r == Ok(requested))
      && (named && (pair in db.channels || untaken) ==> r == Ok(pair))
      && (r == Err(Missing) <==> requested == "" || (requested !in db.channels && requested !in db.users))
      && (r == Err(Forbidden) <==>
           requested != "" && requested !in db.channels && requested in db.users && requested == sender)
      && (r == Err(Failed) <==>
           (requested != "" && requested in db.channels && db.channels[requested].kind == None) ||
           (named && pair !in db.channels && !untaken))
      && after == (if named && pair !in db.channels && untaken then
                     db.(channels := db.channels[pair := ChannelRow(Some("Direct Message"), Some("dm"))],
                         members := db.members + {(pair, sender), (pair, requested)})
                   else db)
  {
    InsertDmOutcome(db, DmId(sender, requested), sender, requested);
  }

  // ---------- The channel list query ----------

  datatype Truth = True | False | Unknown

  function SqlEquals(a: Option<string>, b: string): Truth {
    if a.None? then Unknown else if a.value == b then True else False
  }

  function SqlOr(a: Truth, b: Truth): Truth {
    if a.True? || b.True? then True else if a.False? && b.False? then False else Unknown
  }

  /** `channels c LEFT JOIN channel_members m`: a channel without members has one row with NULL. */
  predicate Joins(db: Db, channel: string, m: Option<string>) {
    channel in db.channels &&
    match m
    case Some(u) => IsMember(db, channel, u)
    case None => !exists p :: p in db.members && p.0 == channel
  }

  datatype ListRow = ListRow(id: string, name: Option<string>, kind: Option<string>)

  /** The row passes `c.type = 'public' OR m.user_id = ?` for some joined member row. */
  ghost predicate Selected(db: Db, user: string, row: ListRow) {
    && row.id in db.channels && db.channels[row.id] == ChannelRow(row.name, row.kind)
    && exists m :: Joins(db, row.id, m) &&
                   SqlOr(SqlEquals(row.kind, "public"), SqlEquals(m, user)) == True
  }

  /** `ORDER BY c.name ASC`, with NULL first. */
  predicate NameLe(a: Option<string>, b: Option<string>) {
    a.None? || (b.Some? && Strings.StringLe(a.value, b.value))
  }

  ghost predicate ByName(rows: seq<ListRow>) {
    forall i, j :: 0 <= i < j < |rows| ==> NameLe(rows[i].name, rows[j].name)
  }

  /** Any answer to the whole query: distinct, ordered, and exactly the selected rows. Rows with equal
      names may come in either order. */
  ghost predicate IsListing(db: Db, user: string, rows: seq<ListRow>) {
    && NoDuplicates(rows)
    && ByName(rows)
    && forall row :: row in rows <==> Selected(db, user, row)
  }

  /** The three-valued filter over the outer join selects what the access check grants, plus channels
      of unknown type that the user is a member of. */
  lemma SelectedMeaning(db: Db, user: string, row: ListRow)
    ensures Selected(db, user, row) <==>
            row.id in db.channels && db.channels[row.id] == ChannelRow(row.name, row.kind) &&
            (row.kind == Some("public") || IsMember(db, row.id, user))
  {
    if row.id in db.channels && IsMember(db, row.id, user) {
      assert Joins(db, row.id, Some(user));
    } else if row.id in db.channels && row.kind == Some("public") {
      if p :| p in db.members && p.0 == row.id {
        assert p == (row.id, p.1);
        assert Joins(db, row.id, Some(p.1));
      } else {
        assert Joins(db, row.id, None);
      }
    }
  }

  lemma NameLeTotal(a: Option<string>, b: Option<string>)
    ensures NameLe(a, b) || NameLe(b, a)
  {
    if a.Some? && b.Some? {
      Strings.StringLeTotal(a.value, b.value);
    }
  }

  lemma NameLeTransitive(a: Option<string>, b: Option<string>, c: Option<string>)
    requires NameLe(a, b) && NameLe(b, c)
    ensures NameLe(a, c)
  {
    if a.Some? {
      Strings.StringLeTransitive(a.value, b.value, c.value);
    }
  }

  lemma FirstByName(row: ListRow, rows: seq<ListRow>)
    requires ByName(rows) && forall j :: 0 <= j < |rows| ==> NameLe(row.name, rows[j].name)
    ensures ByName([row] + rows)
  {
    var all := [row] + rows;
    forall i, j | 0 <= i < j < |all| ensures NameLe(all[i].name, all[j].name) {
      assert all[j] == rows[j - 1];
    }
  }

  /** Places a row in an ordered list. */
  lemma {:induction false} PlaceRow(rows: seq<ListRow>, row: ListRow) returns (more: seq<ListRow>)
    requires ByName(rows)
    ensures ByName(more)
    ensures multiset(more) == multiset(rows) + multiset{row}
  {
    if rows == [] {
      more := [row];
    } else {
      assert rows == [rows[0]] + rows[1..];
      if NameLe(row.name, rows[0].name) {
        more := [row] + rows;
        forall j | 0 <= j < |rows| ensures NameLe(row.name, rows[j].name) {
          if j > 0 {
            NameLeTransitive(row.name, rows[0].name, rows[j].name);
          }
        }
        FirstByName(row, rows);
      } else {
        NameLeTotal(row.name, rows[0].name);
        var rest := PlaceRow(rows[1..], row);
        more := [rows[0]] + rest;
        forall j | 0 <= j < |rest| ensures NameLe(rows[0].name, rest[j].name) {
          assert rest[j] in multiset(rows[1..]) + multiset{row};
        }
        FirstByName(rows[0], rest);
      }
    }
  }

  lemma {:induction false} PlaceRows(todo: set<ListRow>) returns (rows: seq<ListRow>)
    ensures ByName(rows)
    ensures multiset(rows) == multiset(todo)
  {
    if todo == {} {
      rows := [];
    } else {
      var row :| row in todo;
      var rest := PlaceRows(todo - {row});
      rows := PlaceRow(rest, row);
      assert multiset(todo) == multiset(todo - {row}) + multiset{row};
    }
  }

  lemma RepeatedTwice<T>(s: seq<T>, i: nat, j: nat)
    requires i < j < |s|
    ensures s[i] == s[j] ==> multiset(s)[s[i]] >= 2
  {
    assert s == s[..i] + [s[i]] + s[i + 1..j] + [s[j]] + s[j + 1..];
  }

  lemma {:induction false} DistinctFromMultiset<T(!new)>(s: seq<T>, all: set<T>)
    requires multiset(s) == multiset(all)
    ensures NoDuplicates(s)
    ensures forall x :: x in s <==> x in all
  {
    forall i, j | 0 <= i < j < |s| ensures s[i] != s[j] {
      RepeatedTwice(s, i, j);
    }
    forall x ensures x in s <==> x in all {
      assert x in s <==> x in multiset(s);
    }
  }

  /** The query has an answer on every database. */
  lemma ListingExists(db: Db, user: string)
    ensures exists rows :: IsListing(db, user, rows)
  {
    var wanted := set id | id in db.channels ::
      ListRow(id, db.channels[id].name, db.channels[id].kind);
    var chosen := set row | row in wanted && (row.kind == Some("public") || IsMember(db, row.id, user));
    var rows := PlaceRows(chosen);
    DistinctFromMultiset(rows, chosen);
    forall row ensures row in rows <==> Selected(db, user, row) {
      SelectedMeaning(db, user, row);
      if Selected(db, user, row) {
        assert row == ListRow(row.id, db.channels[row.id].name, db.channels[row.id].kind);
        assert row in wanted;
      }
    }
    assert IsListing(db, user, rows);
  }

  // ---------- Direct-message ids ----------

  function DmId(u1: string, u2: string): string {
    if Strings.StringLe(u1, u2) then "dm:" + Strings.Join(u1, ':', u2) else "dm:" + Strings.Join(u2, ':', u1)
  }

  /** The id spelled out: the smaller of the two user ids comes first. */
  lemma DmIdShape(u1: string, u2: string)
    ensures Strings.StringLe(u1, u2) ==> DmId(u1, u2) == "dm:" + u1 + ":" + u2
    ensures !Strings.StringLe(u1, u2) ==> DmId(u1, u2) == "dm:" + u2 + ":" + u1
  {
    assert "dm:" + (u1 + ":" + u2) == "dm:" + u1 + ":" + u2;
    assert "dm:" + (u2 + ":" + u1) == "dm:" + u2 + ":" + u1;
  }

  lemma DmIdSymmetric(u1: string, u2: string)
    ensures DmId(u1, u2) == DmId(u2, u1)
  {
    Strings.StringLeTotal(u1, u2);
    if Strings.StringLe(u1, u2) && Strings.StringLe(u2, u1) {
      Strings.StringLeAntisymmetric(u1, u2);
    }
  }

  predicate ColonFree(u: string) {
    ':' !in u
  }

  /** Distinct unordered pairs of colon-free ids never share a channel id. */
  lemma DmIdInjective(a: string, b: string, c: string, d: string)
    requires ColonFree(a) && ColonFree(b) && ColonFree(c) && ColonFree(d)
    requires DmId(a, b) == DmId(c, d)
    ensures (a == c && b == d) || (a == d && b == c)
  {
    var p, q := if Strings.StringLe(a, b) then (a, b) else (b, a),
                if Strings.StringLe(c, d) then (c, d) else (d, c);
    assert DmId(a, b)[3..] == Strings.Join(p.0, ':', p.1);
    assert DmId(c, d)[3..] == Strings.Join(q.0, ':', q.1);
    Strings.JoinInjective(p.0, p.1, q.0, q.1, ':');
  }

  /** For ids of any form, two ordered pairs share a channel id exactly when they are equal or when the
      text between two colons can be read as part of either id. */
  lemma DmIdCollides(a: string, b: string, c: string, d: string)
    requires Strings.StringLe(a, b) && Strings.StringLe(c, d)
    ensures DmId(a, b) == DmId(c, d) <==>
            (a == c && b == d) || Strings.Overlap(a, b, c, d, ':') || Strings.Overlap(c, d, a, b, ':')
  {
    assert DmId(a, b)[3..] == Strings.Join(a, ':', b);
    assert DmId(c, d)[3..] == Strings.Join(c, ':', d);
    Strings.JoinCollides(a, b, c, d, ':');
  }

  /** Such a pair of pairs: the users "a" and "b:c", and the users "a:b" and "c". */
  lemma DmIdCollisionExample()
    ensures DmId("a", "b:c") == DmId("a:b", "c")
  {
    assert "a:b"[1..] == ":b" && "b:c"[0] == 'b';
    assert Strings.StringLe("a", "b:c") && Strings.StringLe("a:b", "c");
    assert Strings.Join("a", ':', "b:c") == "a:b:c" == Strings.Join("a:b", ':', "c");
  }
}
