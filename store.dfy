/**
 * The two tables behind chat messages: `messages` (rows with an
 * auto-increment id, kept in id order) and `message_deliveries` (one row per
 * message and recipient, with the time it was delivered). Every query and
 * write of the send, history, undelivered and ack paths is a function here;
 * the server object applies them.
 */
module Store {
  import opened Wrappers
  import opened Js
  import opened Seqs
  import opened Ephemeral

  /** A row of the `messages` table. `timestamp` is in milliseconds. */
  datatype Row = Row(
    id: nat,
    roomId: string,
    userId: Option<int>,
    user: string,
    text: string,
    time: string,
    clientId: Option<string>,
    targetUserId: Option<int>,
    timestamp: Option<int>)

  function RowKey(r: Row): int {
    r.id
  }

  /** Ids are positive, below the next auto-increment value, and strictly increase in table order. */
  ghost predicate WellFormed(rows: seq<Row>, nextId: nat) {
    && (forall i :: 0 <= i < |rows| ==> 0 < rows[i].id < nextId)
    && Increasing(rows, RowKey)
  }

  /** At most one row per room and client token. */
  ghost predicate UniqueTokens(rows: seq<Row>) {
    forall i, j :: 0 <= i < j < |rows| && rows[i].clientId.Some? ==>
      !(rows[j].roomId == rows[i].roomId && rows[j].clientId == rows[i].clientId)
  }

  predicate HasToken(x: Row, room: string, token: string) {
    x.roomId == room && x.clientId == Some(token)
  }

  function TokenMatches(room: string, token: string): Row -> bool {
    (x: Row) => HasToken(x, room, token)
  }

  function InRoom(room: string): Row -> bool {
    (x: Row) => x.roomId == room
  }

  function RowExpired(x: Row, now: int): bool {
    IsExpired(x.user, x.text, x.timestamp, now)
  }

  /** `WHERE room_id = ? AND client_id = ? LIMIT 1`: the first such row in table order. */
  function FindByToken(rows: seq<Row>, room: string, token: string): (r: Option<Row>)
    ensures r.Some? ==> r.value in rows && HasToken(r.value, room, token)
    ensures r.None? ==> forall x :: x in rows ==> !HasToken(x, room, token)
  {
    var f := Filter(rows, TokenMatches(room, token));
    if f == [] then None else assert f[0] in f; Some(f[0])
  }

  /** The same lookup `ORDER BY id DESC LIMIT 1`. */
  function LastByToken(rows: seq<Row>, room: string, token: string): (r: Option<Row>)
    ensures r.Some? ==> r.value in rows && HasToken(r.value, room, token)
    ensures r.None? ==> forall x :: x in rows ==> !HasToken(x, room, token)
  {
    var f := Filter(rows, TokenMatches(room, token));
    if f == [] then None else assert f[|f| - 1] in f; Some(f[|f| - 1])
  }

  /** `WHERE room_id = ? ORDER BY id DESC LIMIT 1` */
  function LastInRoom(rows: seq<Row>, room: string): (r: Option<Row>)
    ensures r.Some? ==> r.value in rows && r.value.roomId == room
    ensures r.None? ==> forall x :: x in rows ==> x.roomId != room
  {
    var f := Filter(rows, InRoom(room));
    if f == [] then None else assert f[|f| - 1] in f; Some(f[|f| - 1])
  }

  /** A message that passed validation: sanitized room, user id, display name and text. */
  datatype Draft = Draft(roomId: string, userId: int, user: string, text: string, time: string, clientId: Option<string>)

  /** The outcome of the store step of a send: the new table, the row the caller hears about, and whether it was a replay. */
  datatype Stored = Stored(rows: seq<Row>, nextId: nat, row: Row, replayed: bool)

  /**
   * Idempotent insert: a draft whose client token already has a row in its
   * room inserts nothing and answers with that row; any other draft is
   * inserted under the next id, time-stamped `now`.
   */
  function Persist(rows: seq<Row>, nextId: nat, d: Draft, now: int): (s: Stored)
    ensures s.replayed <==> d.clientId.Some? && FindByToken(rows, d.roomId, d.clientId.value).Some?
    ensures s.replayed ==> s.rows == rows && s.nextId == nextId && s.row in rows
    ensures !s.replayed ==> s.rows == rows + [s.row] && s.row.id == nextId && s.nextId == nextId + 1
    ensures !s.replayed ==> s.row.userId == Some(d.userId) && s.row.user == d.user && s.row.text == d.text
                            && s.row.targetUserId.None? && s.row.timestamp == Some(now)
    ensures s.row.roomId == d.roomId && s.row.clientId == d.clientId
  {
    if d.clientId.Some? && FindByToken(rows, d.roomId, d.clientId.value).Some? then
      Stored(rows, nextId, FindByToken(rows, d.roomId, d.clientId.value).value, true)
    else
      var row := Row(nextId, d.roomId, Some(d.userId), d.user, d.text, d.time, d.clientId, None, Some(now));
      Stored(rows + [row], nextId + 1, row, false)
  }

  /** Appending a row with the next id keeps the table well formed. */
  lemma AppendWellFormed(rows: seq<Row>, nextId: nat, row: Row)
    requires WellFormed(rows, nextId) && row.id == nextId && nextId > 0
    ensures WellFormed(rows + [row], nextId + 1)
  {
    var r := rows + [row];
    forall i, j | 0 <= i < j < |r| ensures RowKey(r[i]) < RowKey(r[j]) {
      if j < |rows| {
        assert r[i] == rows[i] && r[j] == rows[j];
      } else {
        assert r[i] == rows[i];
      }
    }
  }

  /** A store step keeps ids increasing and tokens unique. */
  lemma PersistKeepsInvariants(rows: seq<Row>, nextId: nat, d: Draft, now: int)
    requires WellFormed(rows, nextId) && UniqueTokens(rows) && nextId > 0
    ensures var s := Persist(rows, nextId, d, now);
      WellFormed(s.rows, s.nextId) && UniqueTokens(s.rows)
  {
    var s := Persist(rows, nextId, d, now);
    if !s.replayed {
      AppendWellFormed(rows, nextId, s.row);
      var r := s.rows;
      forall i, j | 0 <= i < j < |r| && r[i].clientId.Some?
        ensures !(r[j].roomId == r[i].roomId && r[j].clientId == r[i].clientId)
      {
        if j == |rows| {
          if d.clientId.Some? {
            assert r[i] in rows;
          }
        } else {
          assert r[i] == rows[i] && r[j] == rows[j];
        }
      }
    }
  }

  /** Appending a row outside the lookup leaves a token lookup unchanged, or makes it find the new row. */
  lemma FindAfterAppend(rows: seq<Row>, row: Row, room: string, token: string)
    ensures FindByToken(rows + [row], room, token)
         == if FindByToken(rows, room, token).Some? then FindByToken(rows, room, token)
            else if HasToken(row, room, token) then Some(row) else None
  {
    FilterAppend(rows, row, TokenMatches(room, token));
  }

  /**
   * Sending the same draft again, or any draft with the same room and
   * client token, stores nothing new and answers with the same row.
   */
  lemma PersistIdempotent(rows: seq<Row>, nextId: nat, d: Draft, d2: Draft, now: int, now2: int)
    requires d.clientId.Some? && d2.clientId == d.clientId && d2.roomId == d.roomId
    ensures var s1 := Persist(rows, nextId, d, now);
            var s2 := Persist(s1.rows, s1.nextId, d2, now2);
            s2.replayed && s2.rows == s1.rows && s2.nextId == s1.nextId && s2.row == s1.row
  {
    var s1 := Persist(rows, nextId, d, now);
    if !s1.replayed {
      FindAfterAppend(rows, s1.row, d.roomId, d.clientId.value);
    }
  }

  datatype Sent = Sent(rows: seq<Row>, nextId: nat, ids: seq<nat>)

  /** Sends in order: the final table and the row id each caller is answered with. */
  function SendAll(rows: seq<Row>, nextId: nat, ds: seq<Draft>, now: int): (r: Sent)
    ensures |r.ids| == |ds|
    decreases |ds|
  {
    if ds == [] then Sent(rows, nextId, [])
    else
      var s := Persist(rows, nextId, ds[0], now);
      var rest := SendAll(s.rows, s.nextId, ds[1..], now);
      Sent(rest.rows, rest.nextId, [s.row.id] + rest.ids)
  }

  predicate SameToken(ds: seq<Draft>, room: string, token: string) {
    forall i :: 0 <= i < |ds| ==> ds[i].roomId == room && ds[i].clientId == Some(token)
  }

  /**
   * Any number of sends with one client token leave at most one new row,
   * and every caller is answered with the same id.
   */
  lemma {:induction false} RepeatedSendsOneRow(rows: seq<Row>, nextId: nat, ds: seq<Draft>, now: int, room: string, token: string)
    requires ds != [] && SameToken(ds, room, token)
    decreases |ds|
    ensures var all := SendAll(rows, nextId, ds, now);
            var first := Persist(rows, nextId, ds[0], now);
            && all.rows == first.rows && all.nextId == first.nextId
            && forall i :: 0 <= i < |all.ids| ==> all.ids[i] == first.row.id
  {
    var first := Persist(rows, nextId, ds[0], now);
    if |ds| > 1 {
      PersistIdempotent(rows, nextId, ds[0], ds[1], now, now);
      var second := Persist(first.rows, first.nextId, ds[1], now);
      assert second.rows == first.rows && second.row == first.row;
      RepeatedSendsOneRow(first.rows, first.nextId, ds[1..], now, room, token);
      assert ds[1..][0] == ds[1];
    }
  }

  /** After an insert, the server's read-back (by token, else the room's newest row) finds the inserted row. */
  lemma ReadBackFindsInsert(rows: seq<Row>, nextId: nat, d: Draft, now: int)
    requires !Persist(rows, nextId, d, now).replayed
    ensures var s := Persist(rows, nextId, d, now);
            (d.clientId.Some? ==> LastByToken(s.rows, d.roomId, d.clientId.value) == Some(s.row))
            && LastInRoom(s.rows, d.roomId) == Some(s.row)
  {
    var s := Persist(rows, nextId, d, now);
    FilterAppend(rows, s.row, InRoom(d.roomId));
    if d.clientId.Some? {
      FilterAppend(rows, s.row, TokenMatches(d.roomId, d.clientId.value));
    }
  }

  // ---- History ----

  /**
   * `parseInt(v, 10)` when it is a positive integer, `None` otherwise; the
   * history cursor and the ids of an ack are read this way.
   */
  function PositiveDecimal(v: JsValue): (c: Option<nat>)
    ensures c.Some? <==> ParseInt(v, true).Some? && ParseInt(v, true).value > 0
    ensures c.Some? ==> c.value > 0 && c.value as int == ParseInt(v, true).value
  {
    match ParseInt(v, true)
    case Some(n) => if n > 0 then Some(n as nat) else None
    case None => None
  }

  predicate Selected(x: Row, room: string, since: Option<nat>, target: Option<int>) {
    && x.roomId == room
    && (since.Some? ==> x.id > since.value)
    && (target.Some? ==> x.targetUserId.None? || x.targetUserId == target)
  }

  function SelectedBy(room: string, since: Option<nat>, target: Option<int>): Row -> bool {
    (x: Row) => Selected(x, room, since, target)
  }

  function LiveAt(now: int): Row -> bool {
    (x: Row) => !RowExpired(x, now)
  }

  /**
   * `GET /api/messages/:roomId`: the room's rows after the cursor, scoped to
   * the target user when one is given, in id order, minus expired notices.
   */
  function History(rows: seq<Row>, room: string, since: Option<nat>, target: Option<int>, now: int): (r: seq<Row>)
    ensures forall x :: x in r <==> x in rows && Selected(x, room, since, target) && !RowExpired(x, now)
  {
    Filter(Filter(rows, SelectedBy(room, since, target)), LiveAt(now))
  }

  /** History comes back in ascending id order. */
  lemma HistoryOrdered(rows: seq<Row>, nextId: nat, room: string, since: Option<nat>, target: Option<int>, now: int)
    requires WellFormed(rows, nextId)
    ensures Increasing(History(rows, room, since, target, now), RowKey)
  {
    FilterIncreasing(rows, SelectedBy(room, since, target), RowKey);
    FilterIncreasing(Filter(rows, SelectedBy(room, since, target)), LiveAt(now), RowKey);
  }

  /**
   * A newly inserted row shows up at the end of every history query that
   * selects it, and nowhere else does the answer change.
   */
  lemma HistoryAfterInsert(rows: seq<Row>, row: Row, room: string, since: Option<nat>, target: Option<int>, now: int)
    ensures History(rows + [row], room, since, target, now)
         == History(rows, room, since, target, now)
            + (if Selected(row, room, since, target) && !RowExpired(row, now) then [row] else [])
  {
    FilterAppend(rows, row, SelectedBy(room, since, target));
    var f := Filter(rows, SelectedBy(room, since, target));
    assert SelectedBy(room, since, target)(row) == Selected(row, room, since, target);
    if Selected(row, room, since, target) {
      FilterAppend(f, row, LiveAt(now));
      assert LiveAt(now)(row) == !RowExpired(row, now);
    } else {
      assert Filter(rows + [row], SelectedBy(room, since, target)) == f + [] == f;
    }
  }

  /** With the cursor at the newest id, an incremental query returns nothing old. */
  lemma HistoryCursorSkipsSeen(rows: seq<Row>, room: string, since: nat, target: Option<int>, now: int)
    requires forall x :: x in rows ==> x.id <= since
    ensures History(rows, room, Some(since), target, now) == []
  {
    var sel := SelectedBy(room, Some(since), target);
    forall x | x in rows ensures !sel(x) {
    }
    FilterNone(rows, sel);
  }

  // ---- Delivery ledger ----

  /** `message_deliveries`: (message id, user id) to the delivery time, `None` while undelivered. */
  type Ledger = map<(nat, int), Option<int>>

  /** `INSERT OR IGNORE`: adds an undelivered row unless the pair already has one. */
  function InsertOrIgnore(l: Ledger, m: nat, u: int): (r: Ledger)
    ensures r.Keys == l.Keys + {(m, u)}
    ensures forall k :: k in l ==> r[k] == l[k]
    ensures (m, u) !in l ==> r[(m, u)] == None
  {
    if (m, u) in l then l else l[(m, u) := None]
  }

  /** `UPDATE ... SET delivered_at = now WHERE user_id = u AND message_id IN ids`: only existing rows change. */
  function MarkDelivered(l: Ledger, u: int, ids: set<nat>, now: int): (r: Ledger)
    ensures r.Keys == l.Keys
    ensures forall k :: k in l && k.1 == u && k.0 in ids ==> r[k] == Some(now)
    ensures forall k :: k in l && !(k.1 == u && k.0 in ids) ==> r[k] == l[k]
  {
    map k | k in l :: if k.1 == u && k.0 in ids then Some(now) else l[k]
  }

  /**
   * The ledger writes of a private-room send: a row for each participant
   * the room has, then the sender's row marked delivered.
   */
  function LedgerAfterSend(l: Ledger, m: nat, user1: Option<int>, user2: Option<int>, sender: int, now: int): (r: Ledger)
    ensures user1.Some? ==> (m, user1.value) in r
    ensures user2.Some? ==> (m, user2.value) in r
    ensures (m, sender) in r ==> r[(m, sender)] == Some(now)
    ensures forall u :: u != sender && (m, u) !in l && (user1 == Some(u) || user2 == Some(u)) ==> r[(m, u)] == None
    ensures forall k :: k in l && k != (m, sender) ==> k in r && r[k] == l[k]
    ensures forall k :: k in r ==> k in l || (k.0 == m && (Some(k.1) == user1 || Some(k.1) == user2))
  {
    var l1 := if user1.Some? then InsertOrIgnore(l, m, user1.value) else l;
    var l2 := if user2.Some? then InsertOrIgnore(l1, m, user2.value) else l1;
    MarkDelivered(l2, sender, {m}, now)
  }

  /** `room_id LIKE 'private_%'`: SQLite's LIKE ignores ASCII case and `_` matches any one character. */
  predicate LikePrivate(room: string) {
    |room| >= 8 && LowerAscii(room[..7]) == "private"
  }

  predicate PendingFor(l: Ledger, u: int, x: Row) {
    (x.id, u) in l && l[(x.id, u)].None? && LikePrivate(x.roomId)
  }

  function PendingPred(l: Ledger, u: int): Row -> bool {
    (x: Row) => PendingFor(l, u, x)
  }

  function ExpiredPred(now: int): Row -> bool {
    (x: Row) => RowExpired(x, now)
  }

  function Ids(rs: seq<Row>): set<nat> {
    set x | x in rs :: x.id
  }

  /** The outcome of the undelivered query: the rows handed out and the ledger after expired notices are closed. */
  datatype Drained = Drained(returned: seq<Row>, ledger: Ledger)

  /**
   * `GET /api/messages/undelivered/:userId`: the user's undelivered rows in
   * private rooms, in id order. Expired notices among them are marked
   * delivered and left out of the answer; the rest are not marked.
   */
  function Drain(rows: seq<Row>, l: Ledger, u: int, now: int): (d: Drained)
    ensures forall x :: x in d.returned <==> x in rows && PendingFor(l, u, x) && !RowExpired(x, now)
    ensures d.ledger.Keys == l.Keys
    ensures forall x :: x in rows && PendingFor(l, u, x) && RowExpired(x, now) ==> d.ledger[(x.id, u)] == Some(now)
    ensures forall x :: x in rows && PendingFor(l, u, x) && !RowExpired(x, now) && (forall y :: y in rows && y.id == x.id ==> y == x) ==>
              d.ledger[(x.id, u)].None?
    ensures forall k :: k in l && (k.1 != u || k.0 !in ExpiredPendingIds(rows, l, u, now)) ==> d.ledger[k] == l[k]
  {
    var pending := Filter(rows, PendingPred(l, u));
    var expired := Filter(pending, ExpiredPred(now));
    var live := Filter(pending, LiveAt(now));
    assert Ids(expired) == ExpiredPendingIds(rows, l, u, now);
    var l' := if expired != [] then MarkDelivered(l, u, Ids(expired), now) else l;
    Drained(live, l')
  }

  /** The ids of the user's undelivered private-room rows that are expired notices at `now`. */
  function ExpiredPendingIds(rows: seq<Row>, l: Ledger, u: int, now: int): set<nat> {
    set x | x in rows && PendingFor(l, u, x) && RowExpired(x, now) :: x.id
  }

  /** The drain answers in ascending id order. */
  lemma DrainOrdered(rows: seq<Row>, nextId: nat, l: Ledger, u: int, now: int)
    requires WellFormed(rows, nextId)
    ensures Increasing(Drain(rows, l, u, now).returned, RowKey)
  {
    FilterIncreasing(rows, PendingPred(l, u), RowKey);
    FilterIncreasing(Filter(rows, PendingPred(l, u)), LiveAt(now), RowKey);
  }

  /**
   * Exactly-once draining: once the client acknowledges what a drain
   * returned, the next drain for that user returns nothing, whatever the
   * clocks, unless new ledger rows appear in between.
   */
  lemma DrainThenAckIsEmpty(rows: seq<Row>, l: Ledger, u: int, now: int, now2: int, now3: int)
    ensures var d := Drain(rows, l, u, now);
            var acked := MarkDelivered(d.ledger, u, Ids(d.returned), now2);
            Drain(rows, acked, u, now3).returned == []
  {
    var d := Drain(rows, l, u, now);
    var acked := MarkDelivered(d.ledger, u, Ids(d.returned), now2);
    forall x | x in rows ensures !PendingPred(acked, u)(x) {
      var k := (x.id, u);
      if k in l && l[k].None? && LikePrivate(x.roomId) {
        if RowExpired(x, now) {
          assert d.ledger[k].Some?;
        } else {
          assert x in d.returned;
          assert k.0 in Ids(d.returned);
        }
      }
    }
    FilterNone(rows, PendingPred(acked, u));
  }

  /** `parseInt(id, 10)` over the posted ids, keeping the positive integers, in order. */
  function PositiveIds(vs: seq<JsValue>): (ids: seq<nat>)
    ensures |ids| <= |vs|
  {
    FlatMap(vs, IdOf)
  }

  /** Every id read comes from a posted value, and every posted value that reads as a positive integer is read. */
  lemma {:induction false} PositiveIdsMembers(vs: seq<JsValue>)
    ensures forall n :: n in PositiveIds(vs) ==> n > 0 && exists v :: v in vs && PositiveDecimal(v) == Some(n)
    ensures forall v :: v in vs && PositiveDecimal(v).Some? ==> PositiveDecimal(v).value in PositiveIds(vs)
  {
    if vs != [] {
      PositiveIdsMembers(vs[1..]);
      assert PositiveIds(vs) == IdOf(vs[0]) + PositiveIds(vs[1..]);
      PositiveIdsStep(vs, PositiveIds(vs[1..]), PositiveIds(vs));
    }
  }

  /** One element more: the ids read so far still come from the list, and the new one is read. */
  lemma PositiveIdsStep(vs: seq<JsValue>, rest: seq<nat>, ids: seq<nat>)
    requires vs != []
    requires forall n :: n in rest ==> n > 0 && exists v :: v in vs[1..] && PositiveDecimal(v) == Some(n)
    requires forall v :: v in vs[1..] && PositiveDecimal(v).Some? ==> PositiveDecimal(v).value in rest
    requires ids == IdOf(vs[0]) + rest
    ensures forall n :: n in ids ==> n > 0 && exists v :: v in vs && PositiveDecimal(v) == Some(n)
    ensures forall v :: v in vs && PositiveDecimal(v).Some? ==> PositiveDecimal(v).value in ids
  {
    forall n | n in ids ensures n > 0 && exists v :: v in vs && PositiveDecimal(v) == Some(n) {
      if n in rest {
        var v :| v in vs[1..] && PositiveDecimal(v) == Some(n);
        assert v in vs;
      } else {
        assert PositiveDecimal(vs[0]) == Some(n);
      }
    }
    forall v | v in vs && PositiveDecimal(v).Some? ensures PositiveDecimal(v).value in ids {
      if v != vs[0] {
        var i :| 0 <= i < |vs| && vs[i] == v;
        assert vs[1..][i - 1] == v;
      }
    }
  }

  /** The id one posted value contributes: itself when it reads as a positive integer, else nothing. */
  function IdOf(v: JsValue): seq<nat> {
    if PositiveDecimal(v).Some? then [PositiveDecimal(v).value] else []
  }

  /** A single posted value gives its id when it reads as a positive integer, and nothing otherwise. */
  lemma PositiveIdsSingleton(v: JsValue)
    ensures PositiveIds([v]) == if PositiveDecimal(v).Some? then [PositiveDecimal(v).value] else []
  {
    assert [v][1..] == [];
  }

  /** The ids of two lists one after the other are the ids of each, in order: `map` and `filter` keep order. */
  lemma PositiveIdsAppend(a: seq<JsValue>, b: seq<JsValue>)
    ensures PositiveIds(a + b) == PositiveIds(a) + PositiveIds(b)
  {
    FlatMapAppend(a, b, IdOf);
  }

  /** Repeated ids are kept, once per occurrence: the number 5 and the string "5" give `[5, 5]`. */
  lemma PositiveIdsKeepsDuplicates(m: nat)
    requires m > 0
    ensures PositiveIds([Num(m), Str(IntToString(m))]) == [m, m]
  {
    NumberReadsAsId(m);
    PositiveIdsSingleton(Num(m));
    PositiveIdsSingleton(Str(IntToString(m)));
    PositiveIdsAppend([Num(m)], [Str(IntToString(m))]);
    assert [Num(m)] + [Str(IntToString(m))] == [Num(m), Str(IntToString(m))];
  }

  /** A positive number, or its decimal string, reads as itself. */
  lemma NumberReadsAsId(m: nat)
    requires m > 0
    ensures PositiveDecimal(Num(m)) == Some(m) && PositiveDecimal(Str(IntToString(m))) == Some(m)
  {
    ParseIntOfIntToString(m, true);
  }

  /** The acknowledged count counts a repeated id twice, as `ids.length` does. */
  lemma AckCountsDuplicates(l: Ledger, u: int, m: nat, now: int)
    requires m > 0
    ensures Ack(l, u, Some([Num(m), Str(IntToString(m))]), now).0 == Ok(2)
  {
    PositiveIdsKeepsDuplicates(m);
  }

  /**
   * `POST /api/messages/ack` after the user id is validated: the posted
   * list must be a non-empty array (`None` stands for a value that is not
   * an array) with at least one positive id; the answer is how many ids
   * were taken, duplicates included.
   */
  function Ack(l: Ledger, u: int, messageIds: Option<seq<JsValue>>, now: int): (r: (Result<nat>, Ledger))
    ensures r.0.Err? ==> r.1 == l && r.0.status == 400
    ensures r.1.Keys == l.Keys
    ensures messageIds.Some? && PositiveIds(messageIds.value) != [] ==> r.0.Ok?
    ensures (messageIds.None? || messageIds == Some([])) ==> r.0 == Err(400, "messageIds must be a non-empty array")
    ensures messageIds.Some? && messageIds.value != [] && PositiveIds(messageIds.value) == [] ==>
              r.0 == Err(400, "No valid message IDs")
    ensures r.0.Ok? ==>
              && messageIds.Some?
              && r.0.value == |PositiveIds(messageIds.value)| > 0
              && r.1 == MarkDelivered(l, u, (set n | n in PositiveIds(messageIds.value)), now)
  {
    if messageIds.None? || messageIds.value == [] then (Err(400, "messageIds must be a non-empty array"), l)
    else
      var ids := PositiveIds(messageIds.value);
      if ids == [] then (Err(400, "No valid message IDs"), l)
      else (Ok(|ids|), MarkDelivered(l, u, (set n | n in ids), now))
  }

  /** Acknowledging a message closes it for that user and for nobody else. */
  lemma AckClosesOnlyOwnRows(l: Ledger, u: int, m: nat, now: int)
    requires (m, u) in l
    ensures var r := Ack(l, u, Some([Num(m)]), now);
            m > 0 ==> r.0 == Ok(1) && r.1[(m, u)] == Some(now)
    ensures var r := Ack(l, u, Some([Num(m)]), now);
            forall k :: k in l && k.1 != u ==> r.1[k] == l[k]
  {
    if m > 0 {
      NumberReadsAsId(m);
      PositiveIdsSingleton(Num(m));
    }
  }
}
