/**
 * The send pipeline shared by the `send_message` socket handler and
 * `POST /api/messages`: validate, look the client token up, insert at most
 * one row, broadcast to the room (and to both participants of a private
 * room), and for a private room open a ledger row per participant with the
 * sender's already delivered.
 */
module Sending {
  import opened Wrappers
  import opened Js
  import opened Seqs
  import opened Validation
  import opened Ephemeral
  import opened Store
  import opened Events
  import opened Database

  /** The fields of a send, as they arrive. `clientId` is `None` when absent or empty. */
  datatype Payload = Payload(roomId: JsValue, userId: JsValue, user: JsValue, text: JsValue, time: string, clientId: Option<string>)

  /** Which entry point received the send; a socket send names its socket. */
  datatype Via = Socket(sid: SocketId) | Http

  /** `Refused` carries the validation error; `Delivered` the row every caller hears about. */
  datatype SendReply = Refused(error: string) | Delivered(row: Row, replayed: bool)

  datatype SendStep = SendStep(reply: SendReply, db: Db, emits: seq<Emit>)

  /**
   * The display name stored with a message: the trimmed string form cut to
   * 30 UTF-16 code units, or "Anonymous" when missing.
   */
  function SenderName(user: JsValue): (r: string)
    ensures Falsy(user) ==> r == "Anonymous"
    ensures Truthy(user) ==> r == Utf16Prefix(Trim(ToStr(user)), 30)
  {
    if Truthy(user) then Utf16Prefix(Trim(ToStr(user)), 30) else "Anonymous"
  }

  /**
   * A given name is stored as the longest prefix of its trimmed form that
   * fits in 30 code units, so a trimmed name that fits is stored whole.
   */
  lemma SenderNameFits(user: JsValue)
    requires Truthy(user)
    ensures var t := Trim(ToStr(user));
            var r := SenderName(user);
            && Utf16Length(r) <= 30 && |r| <= |t| && r == t[..|r|]
            && (|r| < |t| ==> Utf16Length(t[..|r| + 1]) > 30)
            && (Utf16Length(t) <= 30 ==> r == t)
  {
    var t := Trim(ToStr(user));
    var r := Utf16Prefix(t, 30);
    assert SenderName(user) == r;
  }

  /** Text is checked first, then the user id, then the room; the first failure is reported. */
  function Check(p: Payload): (r: Result<Draft>)
    ensures r.Ok? <==> ValidateMessageText(p.text).Valid? && ValidateUserId(p.userId).Valid? && ValidateRoomId(p.roomId).Valid?
    ensures r.Err? ==> r.status == 400
    ensures ValidateMessageText(p.text).Invalid? ==> r.Err? && r.error == ValidateMessageText(p.text).error
    ensures ValidateMessageText(p.text).Valid? && ValidateUserId(p.userId).Invalid? ==>
              r == Err(400, ValidateUserId(p.userId).error)
    ensures ValidateMessageText(p.text).Valid? && ValidateUserId(p.userId).Valid? && ValidateRoomId(p.roomId).Invalid? ==>
              r == Err(400, ValidateRoomId(p.roomId).error)
    ensures r.Ok? ==> && r.value.text == Trim(p.text.s)
                      && r.value.userId == ValidateUserId(p.userId).sanitized
                      && r.value.roomId == ValidateRoomId(p.roomId).sanitized
                      && r.value.clientId == p.clientId
                      && r.value.user == SenderName(p.user)
  {
    var text := ValidateMessageText(p.text);
    var user := ValidateUserId(p.userId);
    var room := ValidateRoomId(p.roomId);
    if text.Invalid? then Err(400, text.error)
    else if user.Invalid? then Err(400, user.error)
    else if room.Invalid? then Err(400, room.error)
    else Ok(Draft(room.sanitized, user.sanitized, SenderName(p.user), text.sanitized, p.time, p.clientId))
  }

  /**
   * The two participants of a private room `private_<n>`, read from room
   * `n`; none for a mood room or a missing room row.
   */
  function Participants(rooms: seq<PrivateRoom>, room: string): (r: (Option<int>, Option<int>))
    ensures r.0.Some? <==> r.1.Some?
    ensures r.0.Some? ==> StartsWith(room, "private_") && exists x :: x in rooms && x.user1 == r.0.value && x.user2 == r.1.value
    ensures r.0.Some? <==> && StartsWith(room, "private_")
                           && ParseIntString(room[8..], true).Some?
                           && RoomById(rooms, ParseIntString(room[8..], true).value).Some?
    ensures r.0.Some? ==> var x := RoomById(rooms, ParseIntString(room[8..], true).value).value;
                          x.id == ParseIntString(room[8..], true).value && r == (Some(x.user1), Some(x.user2))
  {
    if StartsWith(room, "private_") then
      match ParseIntString(room[8..], true)
      case None => (None, None)
      case Some(n) =>
        match RoomById(rooms, n)
        case None => (None, None)
        case Some(x) => (Some(x.user1), Some(x.user2))
    else (None, None)
  }

  function DeliverTo(u: Option<int>, row: Row): seq<Emit> {
    if u.Some? then [Emit(ToRoom(UserRoomOf(u.value)), "receive_message", ReceiveMessage(row))] else []
  }

  /** The whole send step, for either entry point. */
  function SendSpec(db: Db, via: Via, p: Payload, now: int): (r: SendStep)
    ensures r.reply.Delivered? <==> Check(p).Ok?
    ensures r.reply.Refused? ==> Check(p).Err? && r.reply.error == Check(p).error
    ensures r.reply.Refused? ==> r.db == db
    ensures r.reply.Refused? && via.Socket? ==> r.emits == [Emit(ToSocket(via.sid), "error", ErrorEvent(r.reply.error))]
    ensures r.reply.Refused? && via.Http? ==> r.emits == []
    ensures r.reply.Delivered? ==>
              && Check(p).Ok? && |r.emits| >= 1
              && r.emits[0] == Emit(ToRoom(Check(p).value.roomId), "receive_message", ReceiveMessage(r.reply.row))
    ensures r.reply.Delivered? ==>
              var d := Check(p).value;
              (r.reply.replayed <==> d.clientId.Some? && FindByToken(db.messages, d.roomId, d.clientId.value).Some?)
    ensures r.reply.Delivered? && r.reply.replayed ==>
              && r.db == db
              && Some(r.reply.row) == FindByToken(db.messages, Check(p).value.roomId, Check(p).value.clientId.value)
    ensures r.reply.Delivered? && !r.reply.replayed ==>
              var d := Check(p).value;
              && r.db.messages == db.messages + [r.reply.row]
              && r.db.nextMessageId == db.nextMessageId + 1
              && r.reply.row == Row(db.nextMessageId, d.roomId, Some(d.userId), d.user, d.text, d.time, d.clientId, None, Some(now))
    ensures r.reply.Delivered? && !r.reply.replayed ==>
              var d := Check(p).value;
              r.db.ledger == if StartsWith(d.roomId, "private_")
                             then LedgerAfterSend(db.ledger, r.reply.row.id, Participants(db.rooms, d.roomId).0, Participants(db.rooms, d.roomId).1, d.userId, now)
                             else db.ledger
    ensures r.reply.Delivered? ==>
              var d := Check(p).value;
              var (u1, u2) := Participants(db.rooms, d.roomId);
              r.emits == [Emit(ToRoom(d.roomId), "receive_message", ReceiveMessage(r.reply.row))]
                         + DeliverTo(u1, r.reply.row) + DeliverTo(u2, r.reply.row)
    ensures r.db.rooms == db.rooms && r.db.requests == db.requests && r.db.usernames == db.usernames
  {
    match Check(p)
    case Err(_, e) =>
      SendStep(Refused(e), db, if via.Socket? then [Emit(ToSocket(via.sid), "error", ErrorEvent(e))] else [])
    case Ok(d) =>
      var s := Persist(db.messages, db.nextMessageId, d, now);
      var (u1, u2) := Participants(db.rooms, d.roomId);
      var emits := [Emit(ToRoom(d.roomId), "receive_message", ReceiveMessage(s.row))] + DeliverTo(u1, s.row) + DeliverTo(u2, s.row);
      var ledger := if s.replayed || !StartsWith(d.roomId, "private_") then db.ledger
                    else LedgerAfterSend(db.ledger, s.row.id, u1, u2, d.userId, now);
      assert !s.replayed ==> s.rows[..|db.messages|] == db.messages;
      SendStep(Delivered(s.row, s.replayed), db.(messages := s.rows, nextMessageId := s.nextId, ledger := ledger), emits)
  }

  /** A send step keeps the database invariant. */
  lemma SendKeepsDbValid(db: Db, via: Via, p: Payload, now: int)
    requires DbValid(db)
    ensures DbValid(SendSpec(db, via, p, now).db)
  {
    if Check(p).Ok? {
      var d := Check(p).value;
      PersistKeepsInvariants(db.messages, db.nextMessageId, d, now);
    }
  }

  /**
   * Token-level idempotence across both entry points: resending a payload
   * with a client token (by socket or HTTP, in any order) stores nothing
   * new, touches no ledger row, and answers with the same row.
   */
  lemma ResendIsReplay(db: Db, via1: Via, via2: Via, p: Payload, now1: int, now2: int)
    requires p.clientId.Some? && Check(p).Ok?
    ensures var first := SendSpec(db, via1, p, now1);
            var second := SendSpec(first.db, via2, p, now2);
            && second.reply == Delivered(first.reply.row, true)
            && second.db == first.db
  {
    var d := Check(p).value;
    PersistIdempotent(db.messages, db.nextMessageId, d, d, now1, now2);
  }

  /** A validated private room name is matched by the undelivered query's `LIKE 'private_%'`. */
  lemma PrivateRoomIsLikePrivate(room: string)
    requires IsPrivateRoomName(room)
    ensures LikePrivate(room)
    ensures StartsWith(room, "private_")
  {
    assert room[..7] == "private";
    assert LowerAscii(room[..7]) == "private";
  }

  /** What a fresh private send leaves in the database: the new row and the ledger after the send. */
  lemma FreshPrivateSend(db: Db, via: Via, p: Payload, now: int)
    requires SendSpec(db, via, p, now).reply.Delivered? && !SendSpec(db, via, p, now).reply.replayed
    requires IsPrivateRoomName(Check(p).value.roomId)
    ensures var r := SendSpec(db, via, p, now);
            var d := Check(p).value;
            var (u1, u2) := Participants(db.rooms, d.roomId);
            && r.reply.row == Persist(db.messages, db.nextMessageId, d, now).row
            && r.db.messages == db.messages + [r.reply.row]
            && r.reply.row.id == db.nextMessageId
            && r.db.ledger == LedgerAfterSend(db.ledger, r.reply.row.id, u1, u2, d.userId, now)
  {
    PrivateRoomIsLikePrivate(Check(p).value.roomId);
  }

  /**
   * Store-and-forward for private rooms: after a fresh send by one
   * participant, the other participant's next undelivered query returns
   * the message (unless it is an expired notice), while the sender's does not.
   */
  lemma RecipientSeesSendOnDrain(db: Db, via: Via, p: Payload, now: int, later: int, other: int)
    requires DbValid(db)
    requires SendSpec(db, via, p, now).reply.Delivered? && !SendSpec(db, via, p, now).reply.replayed
    requires IsPrivateRoomName(Check(p).value.roomId)
    requires Participants(db.rooms, Check(p).value.roomId).0 == Some(other)
          || Participants(db.rooms, Check(p).value.roomId).1 == Some(other)
    requires other != Check(p).value.userId
    ensures var r := SendSpec(db, via, p, now);
            !RowExpired(r.reply.row, later) ==> r.reply.row in Drain(r.db.messages, r.db.ledger, other, later).returned
    ensures var r := SendSpec(db, via, p, now);
            r.reply.row !in Drain(r.db.messages, r.db.ledger, Check(p).value.userId, later).returned
  {
    var r := SendSpec(db, via, p, now);
    var d := Check(p).value;
    var row := r.reply.row;
    var (u1, u2) := Participants(db.rooms, d.roomId);
    FreshPrivateSend(db, via, p, now);
    PrivateRoomIsLikePrivate(d.roomId);
    assert (row.id, other) !in db.ledger;
    assert r.db.ledger[(row.id, other)] == None;
    assert row in r.db.messages;
    assert PendingFor(r.db.ledger, other, row);
    assert !PendingFor(r.db.ledger, d.userId, row);
  }
}
