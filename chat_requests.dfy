/**
 * Private chat requests: `POST /api/private-chat/request`,
 * `POST /api/private-chat/respond` and `GET /api/private-chat/room`. A
 * request row per pair of users moves pending -> accepted | rejected and is
 * reused (reset to pending) when the pair asks again; each pair gets one
 * active room; the recipient hears about it by socket and by a System
 * notice in the room.
 */
module ChatRequests {
  import opened Wrappers
  import opened Js
  import opened Validation
  import opened Ephemeral
  import opened Store
  import opened Events
  import opened Database

  datatype RequestReply = RequestReply(requestId: nat, roomId: nat)
  datatype RespondReply = RespondReply(status: string, roomId: Option<nat>)

  datatype ChatStep<T> = ChatStep(reply: Result<T>, db: Db, emits: seq<Emit>)

  /** `private_<a>_<b>`, the stored name of a new room. */
  function RoomName(a: int, b: int): string {
    "private_" + IntToString(a) + "_" + IntToString(b)
  }

  /** The key the room's messages are filed under: `private_<room id>`. */
  function RoomKey(id: nat): string {
    "private_" + IntToString(id)
  }

  datatype Ensured = Ensured(db: Db, roomId: nat)

  /** The pair's active room, created when there is none. */
  function EnsureRoom(db: Db, a: int, b: int): (r: Ensured)
    ensures exists x :: x in r.db.rooms && x.id == r.roomId && x.active && SamePair(x.user1, x.user2, a, b)
    ensures FindActiveRoom(db.rooms, a, b).Some? ==> r.db == db && r.roomId == FindActiveRoom(db.rooms, a, b).value.id
    ensures FindActiveRoom(db.rooms, a, b).None? ==>
              && r.db == db.(rooms := db.rooms + [PrivateRoom(db.nextRoomId, RoomName(a, b), a, b, true)], nextRoomId := db.nextRoomId + 1)
              && r.roomId == db.nextRoomId
  {
    match FindActiveRoom(db.rooms, a, b)
    case Some(x) => Ensured(db, x.id)
    case None =>
      var x := PrivateRoom(db.nextRoomId, RoomName(a, b), a, b, true);
      assert x in db.rooms + [x];
      Ensured(db.(rooms := db.rooms + [x], nextRoomId := db.nextRoomId + 1), db.nextRoomId)
  }

  lemma EnsureRoomKeepsValid(db: Db, a: int, b: int)
    requires DbValid(db)
    ensures DbValid(EnsureRoom(db, a, b).db)
  {
    if FindActiveRoom(db.rooms, a, b).None? {
      var rooms := EnsureRoom(db, a, b).db.rooms;
      var n := |db.rooms|;
      forall i, j | 0 <= i < j < |rooms| && rooms[i].active && rooms[j].active
        ensures !SamePair(rooms[i].user1, rooms[i].user2, rooms[j].user1, rooms[j].user2)
      {
        if j == n {
          assert rooms[i] in db.rooms;
        } else {
          assert rooms[i] == db.rooms[i] && rooms[j] == db.rooms[j];
        }
      }
    }
  }

  /** `SELECT id FROM messages WHERE room_id = ? AND "user" = 'System' AND text = ? AND target_user_id = ?` */
  predicate IsNotice(x: Row, room: string, text: string, target: int) {
    x.roomId == room && x.user == "System" && x.text == text && x.targetUserId == Some(target)
  }

  datatype Posted = Posted(db: Db, emits: seq<Emit>)

  /**
   * Adds a System notice addressed to `target` to the room, unless the
   * same notice is already there, and broadcasts it to the room.
   */
  function PostNotice(db: Db, roomId: nat, text: string, target: int, now: int, time: string): (r: Posted)
    ensures r.db.requests == db.requests && r.db.rooms == db.rooms
    ensures (exists x :: x in db.messages && IsNotice(x, RoomKey(roomId), text, target)) ==> r == Posted(db, [])
    ensures !(exists x :: x in db.messages && IsNotice(x, RoomKey(roomId), text, target)) ==>
              var row := Row(db.nextMessageId, RoomKey(roomId), None, "System", text, time, None, Some(target), Some(now));
              && r.db == db.(messages := db.messages + [row], nextMessageId := db.nextMessageId + 1)
              && r.emits == [Emit(ToRoom(RoomKey(roomId)), "receive_message", ReceiveMessage(row))]
  {
    if exists x :: x in db.messages && IsNotice(x, RoomKey(roomId), text, target) then Posted(db, [])
    else
      var row := Row(db.nextMessageId, RoomKey(roomId), None, "System", text, time, None, Some(target), Some(now));
      Posted(db.(messages := db.messages + [row], nextMessageId := db.nextMessageId + 1),
             [Emit(ToRoom(RoomKey(roomId)), "receive_message", ReceiveMessage(row))])
  }

  /** Posting a notice reads only the messages table and its counter. */
  lemma PostNoticeReadsMessages(db1: Db, db2: Db, roomId: nat, text: string, target: int, now: int, time: string)
    requires db1.messages == db2.messages && db1.nextMessageId == db2.nextMessageId
    ensures var p1 := PostNotice(db1, roomId, text, target, now, time);
            var p2 := PostNotice(db2, roomId, text, target, now, time);
            p1.db.messages == p2.db.messages && p1.db.nextMessageId == p2.db.nextMessageId && p1.emits == p2.emits
  {
  }

  /** A notice is posted at most once: posting it again changes nothing. */
  lemma PostNoticeOnce(db: Db, roomId: nat, text: string, target: int, now: int, time: string, later: int, time2: string)
    ensures var first := PostNotice(db, roomId, text, target, now, time);
            PostNotice(first.db, roomId, text, target, later, time2) == Posted(first.db, [])
  {
    var first := PostNotice(db, roomId, text, target, now, time);
    if first.db != db {
      var row := first.db.messages[|db.messages|];
      assert row in first.db.messages && IsNotice(row, RoomKey(roomId), text, target);
    }
  }

  lemma PostNoticeKeepsValid(db: Db, roomId: nat, text: string, target: int, now: int, time: string)
    requires DbValid(db)
    ensures DbValid(PostNotice(db, roomId, text, target, now, time).db)
  {
    var r := PostNotice(db, roomId, text, target, now, time);
    if r.db != db {
      var row := r.db.messages[|db.messages|];
      assert r.db.messages == db.messages + [row];
      AppendWellFormed(db.messages, db.nextMessageId, row);
      var rs := r.db.messages;
      forall i, j | 0 <= i < j < |rs| && rs[i].clientId.Some?
        ensures !(rs[j].roomId == rs[i].roomId && rs[j].clientId == rs[i].clientId)
      {
        if j < |db.messages| {
          assert rs[i] == db.messages[i] && rs[j] == db.messages[j];
        }
      }
    }
  }

  /** The notice the requested user finds in the room: "<requester> sent you a chat request." */
  function RequestText(name: string): string {
    name + " " + REQUEST_SENT + "."
  }

  /** The notice the requester finds in the room: "<accepter> accepted your chat request.", "User" standing in for a missing name. */
  function AcceptText(db: Db, accepter: int): string {
    var name := if accepter in db.usernames && db.usernames[accepter] != "" then db.usernames[accepter] else "User";
    name + " " + REQUEST_ACCEPTED + "."
  }

  /** The name of a user row, if the user exists. */
  function NameOf(db: Db, u: int): Option<string> {
    if u in db.usernames then Some(db.usernames[u]) else None
  }

  /** The event a user listens on for requests: `private_chat_request_<id>`. */
  function RequestEventName(u: int): string {
    "private_chat_request_" + IntToString(u)
  }

  function AcceptedEventName(u: int): string {
    "private_chat_accepted_" + IntToString(u)
  }

  function RejectedEventName(u: int): string {
    "private_chat_rejected_" + IntToString(u)
  }

  datatype Opened = Opened(db: Db, requestId: nat, notify: bool)

  /**
   * The request row for the pair: a pending one is reused as is and
   * nobody is notified again; an answered one is reset to pending in the
   * new direction, keeping its id; otherwise a new row is inserted.
   */
  function OpenRequest(db: Db, a: int, b: int, now: int): (r: Opened)
    ensures exists i :: 0 <= i < |r.db.requests| && r.db.requests[i].id == r.requestId
              && r.db.requests[i].status == Pending && SamePair(r.db.requests[i].requester, r.db.requests[i].requested, a, b)
    ensures r.db.messages == db.messages && r.db.rooms == db.rooms && r.db.ledger == db.ledger
    ensures r.db.usernames == db.usernames && r.db.nextMessageId == db.nextMessageId && r.db.nextRoomId == db.nextRoomId
    ensures FindRequestForPair(db.requests, a, b).None? ==>
              && r.db.requests == db.requests + [ChatRequest(db.nextRequestId, a, b, Pending, now)]
              && r.db.nextRequestId == db.nextRequestId + 1
              && r.requestId == db.nextRequestId && r.notify
    ensures FindRequestForPair(db.requests, a, b).Some? ==>
              var i := FindRequestForPair(db.requests, a, b).value;
              && r.requestId == db.requests[i].id
              && r.db.nextRequestId == db.nextRequestId
              && (db.requests[i].status == Pending ==> r.db == db && !r.notify)
              && (db.requests[i].status != Pending ==>
                    r.db.requests == db.requests[i := ChatRequest(db.requests[i].id, a, b, Pending, now)] && r.notify)
  {
    match FindRequestForPair(db.requests, a, b)
    case Some(i) =>
      var prior := db.requests[i];
      if prior.status == Pending then Opened(db, prior.id, false)
      else
        var reset := ChatRequest(prior.id, a, b, Pending, now);
        assert db.requests[i := reset][i] == reset;
        Opened(db.(requests := db.requests[i := reset]), prior.id, true)
    case None =>
      var added := ChatRequest(db.nextRequestId, a, b, Pending, now);
      assert (db.requests + [added])[|db.requests|] == added;
      Opened(db.(requests := db.requests + [added], nextRequestId := db.nextRequestId + 1), db.nextRequestId, true)
  }

  lemma OpenRequestKeepsValid(db: Db, a: int, b: int, now: int)
    requires DbValid(db)
    ensures DbValid(OpenRequest(db, a, b, now).db)
  {
    var reqs := OpenRequest(db, a, b, now).db.requests;
    match FindRequestForPair(db.requests, a, b)
    case Some(k) =>
      forall i, j | 0 <= i < j < |reqs|
        ensures !SamePair(reqs[i].requester, reqs[i].requested, reqs[j].requester, reqs[j].requested)
      {
        assert SamePair(reqs[k].requester, reqs[k].requested, db.requests[k].requester, db.requests[k].requested);
      }
    case None =>
      forall i, j | 0 <= i < j < |reqs|
        ensures !SamePair(reqs[i].requester, reqs[i].requested, reqs[j].requester, reqs[j].requested)
      {
        if j == |db.requests| {
          assert reqs[i] in db.requests;
        } else {
          assert reqs[i] == db.requests[i] && reqs[j] == db.requests[j];
        }
      }
  }

  /** `POST /api/private-chat/request` */
  function RequestChat(db: Db, requesterId: JsValue, requestedId: JsValue, now: int, time: string): (r: ChatStep<RequestReply>)
    ensures r.reply.Err? ==> r.reply.status == 400 && r.db == db && r.emits == []
    ensures r.reply.Ok? <==> ValidateUserId(requesterId).Valid? && ValidateUserId(requestedId).Valid? && requesterId != requestedId
    ensures r.reply.Ok? ==>
              var a := ValidateUserId(requesterId).sanitized;
              var b := ValidateUserId(requestedId).sanitized;
              && (exists x :: x in r.db.requests && x.id == r.reply.value.requestId && x.status == Pending
                                && SamePair(x.requester, x.requested, a, b))
              && (exists x :: x in r.db.rooms && x.id == r.reply.value.roomId && x.active
                                && SamePair(x.user1, x.user2, a, b))
  {
    var rv := ValidateUserId(requesterId);
    var qv := ValidateUserId(requestedId);
    if rv.Invalid? then ChatStep(Err(400, rv.error), db, [])
    else if qv.Invalid? then ChatStep(Err(400, qv.error), db, [])
    else if requesterId == requestedId then ChatStep(Err(400, "Cannot request private chat with yourself"), db, [])
    else OpenChat(db, rv.sanitized, qv.sanitized, now, time)
  }

  /**
   * A validated request from `a` to `b`: the pair's request row, its active
   * room, and, when the row is new or reset and `a` exists, the pushes to
   * `b` and the notice in the room.
   */
  function OpenChat(db: Db, a: int, b: int, now: int, time: string): (r: ChatStep<RequestReply>)
    ensures r.reply.Ok?
    ensures exists x :: x in r.db.requests && x.id == r.reply.value.requestId && x.status == Pending
                          && SamePair(x.requester, x.requested, a, b)
    ensures exists x :: x in r.db.rooms && x.id == r.reply.value.roomId && x.active && SamePair(x.user1, x.user2, a, b)
    ensures var o := OpenRequest(db, a, b, now);
            && r.reply.value.requestId == o.requestId
            && r.db.requests == o.db.requests && r.db.nextRequestId == o.db.nextRequestId
            && r.db.ledger == db.ledger && r.db.usernames == db.usernames
    ensures FindActiveRoom(db.rooms, a, b).Some? ==>
              && r.reply.value.roomId == FindActiveRoom(db.rooms, a, b).value.id
              && r.db.rooms == db.rooms && r.db.nextRoomId == db.nextRoomId
    ensures FindActiveRoom(db.rooms, a, b).None? ==>
              && r.reply.value.roomId == db.nextRoomId
              && r.db.rooms == db.rooms + [PrivateRoom(db.nextRoomId, RoomName(a, b), a, b, true)]
              && r.db.nextRoomId == db.nextRoomId + 1
    ensures !(OpenRequest(db, a, b, now).notify && a in db.usernames) ==>
              r.emits == [] && r.db.messages == db.messages && r.db.nextMessageId == db.nextMessageId
    ensures OpenRequest(db, a, b, now).notify && a in db.usernames ==>
              var notice := ChatRequestNotice(r.reply.value.requestId, a, db.usernames[a], now);
              var posted := PostNotice(db, r.reply.value.roomId, RequestText(db.usernames[a]), b, now, time);
              && r.db.messages == posted.db.messages && r.db.nextMessageId == posted.db.nextMessageId
              && r.emits == [Emit(ToRoom(UserRoomOf(b)), RequestEventName(b), notice), Emit(ToAll, RequestEventName(b), notice)]
                            + posted.emits
  {
    var step := OpenRequest(db, a, b, now);
    var room := EnsureRoom(step.db, a, b);
    var name := NameOf(db, a);
    var tell := step.notify && name.Some?;
    var notice := ChatRequestNotice(step.requestId, a, if name.Some? then name.value else "", now);
    var pushes := if tell then [Emit(ToRoom(UserRoomOf(b)), RequestEventName(b), notice), Emit(ToAll, RequestEventName(b), notice)] else [];
    var posted := if tell then PostNotice(room.db, room.roomId, RequestText(name.value), b, now, time)
                  else Posted(room.db, []);
    PostNoticeReadsMessages(room.db, db, room.roomId, RequestText(if name.Some? then name.value else ""), b, now, time);
    ChatStep(Ok(RequestReply(step.requestId, room.roomId)), posted.db, pushes + posted.emits)
  }

  lemma RequestChatKeepsValid(db: Db, requesterId: JsValue, requestedId: JsValue, now: int, time: string)
    requires DbValid(db)
    ensures DbValid(RequestChat(db, requesterId, requestedId, now, time).db)
  {
    var rv := ValidateUserId(requesterId);
    var qv := ValidateUserId(requestedId);
    if rv.Valid? && qv.Valid? && requesterId != requestedId {
      var a := rv.sanitized;
      var b := qv.sanitized;
      OpenRequestKeepsValid(db, a, b, now);
      var step := OpenRequest(db, a, b, now);
      EnsureRoomKeepsValid(step.db, a, b);
      var room := EnsureRoom(step.db, a, b);
      var name := NameOf(db, a);
      if step.notify && name.Some? {
        PostNoticeKeepsValid(room.db, room.roomId, RequestText(name.value), b, now, time);
      }
    }
  }

  /**
   * Asking again while the pair's request is still pending and its room
   * exists changes nothing and notifies nobody; the caller gets the same
   * request id back.
   */
  lemma RepeatRequestWhilePending(db: Db, requesterId: JsValue, requestedId: JsValue, now: int, time: string)
    requires RequestChat(db, requesterId, requestedId, now, time).reply.Ok?
    requires var a := ValidateUserId(requesterId).sanitized;
             var b := ValidateUserId(requestedId).sanitized;
             && FindRequestForPair(db.requests, a, b).Some?
             && db.requests[FindRequestForPair(db.requests, a, b).value].status == Pending
             && FindActiveRoom(db.rooms, a, b).Some?
    ensures var r := RequestChat(db, requesterId, requestedId, now, time);
            var a := ValidateUserId(requesterId).sanitized;
            var b := ValidateUserId(requestedId).sanitized;
            && r.db == db && r.emits == []
            && r.reply.value.requestId == db.requests[FindRequestForPair(db.requests, a, b).value].id
  {
    OpenChatWhilePending(db, ValidateUserId(requesterId).sanitized, ValidateUserId(requestedId).sanitized, now, time);
  }

  lemma OpenChatWhilePending(db: Db, a: int, b: int, now: int, time: string)
    requires FindRequestForPair(db.requests, a, b).Some?
    requires db.requests[FindRequestForPair(db.requests, a, b).value].status == Pending
    requires FindActiveRoom(db.rooms, a, b).Some?
    ensures OpenChat(db, a, b, now, time)
         == ChatStep(Ok(RequestReply(db.requests[FindRequestForPair(db.requests, a, b).value].id,
                                     FindActiveRoom(db.rooms, a, b).value.id)), db, [])
  {
    var i := FindRequestForPair(db.requests, a, b).value;
    assert OpenRequest(db, a, b, now) == Opened(db, db.requests[i].id, false);
    assert EnsureRoom(db, a, b) == Ensured(db, FindActiveRoom(db.rooms, a, b).value.id);
  }

  /**
   * Row reuse: asking again after the request was answered resets the same
   * row (same id, same place) to pending in the new direction, time-stamped now.
   */
  lemma ReRequestReusesRow(db: Db, requesterId: JsValue, requestedId: JsValue, now: int, time: string)
    requires RequestChat(db, requesterId, requestedId, now, time).reply.Ok?
    requires var a := ValidateUserId(requesterId).sanitized;
             var b := ValidateUserId(requestedId).sanitized;
             && FindRequestForPair(db.requests, a, b).Some?
             && db.requests[FindRequestForPair(db.requests, a, b).value].status != Pending
    ensures var r := RequestChat(db, requesterId, requestedId, now, time);
            var a := ValidateUserId(requesterId).sanitized;
            var b := ValidateUserId(requestedId).sanitized;
            var i := FindRequestForPair(db.requests, a, b).value;
            && |r.db.requests| == |db.requests|
            && r.db.requests[i] == ChatRequest(db.requests[i].id, a, b, Pending, now)
            && r.reply.value.requestId == db.requests[i].id
  {
    OpenChatResets(db, ValidateUserId(requesterId).sanitized, ValidateUserId(requestedId).sanitized, now, time);
  }

  lemma OpenChatResets(db: Db, a: int, b: int, now: int, time: string)
    requires FindRequestForPair(db.requests, a, b).Some?
    requires db.requests[FindRequestForPair(db.requests, a, b).value].status != Pending
    ensures var r := OpenChat(db, a, b, now, time);
            var i := FindRequestForPair(db.requests, a, b).value;
            && r.db.requests == db.requests[i := ChatRequest(db.requests[i].id, a, b, Pending, now)]
            && r.reply.value.requestId == db.requests[i].id
  {
    var i := FindRequestForPair(db.requests, a, b).value;
    var step := OpenRequest(db, a, b, now);
    assert step.db.requests == db.requests[i := ChatRequest(db.requests[i].id, a, b, Pending, now)];
    assert step.requestId == db.requests[i].id;
    assert EnsureRoom(step.db, a, b).db.requests == step.db.requests;
  }

  /** The self check compares raw values: user 5 asking the string "5" gets a request to itself. */
  lemma SelfRequestSlipsThrough(db: Db, now: int, time: string)
    ensures RequestChat(db, Num(5), Str("5"), now, time).reply.Ok?
    ensures RequestChat(db, Num(5), Num(5), now, time).reply == Err(400, "Cannot request private chat with yourself")
  {
    FiveParses();
    assert Num(5) != Str("5");
  }

  lemma FiveParses()
    ensures ValidateUserId(Num(5)) == Valid(5) && ValidateUserId(Str("5")) == Valid(5)
  {
    UserIdRoundTrip(5);
    assert NatToString(5) == [DigitChar(5)];
  }

  /** `POST /api/private-chat/respond` */
  function RespondChat(db: Db, requestId: JsValue, userId: JsValue, response: JsValue, now: int, time: string): (r: ChatStep<RespondReply>)
    ensures r.reply.Err? ==> r.db == db && r.emits == []
    ensures r.reply.Ok? ==>
              && (response == Str("accept") || response == Str("reject"))
              && ValidateUserId(userId).Valid? && ValidateUserId(requestId).Valid?
              && var i := FindRequest(db.requests, ValidateUserId(requestId).sanitized);
                 && i.Some?
                 && db.requests[i.value].requested == ValidateUserId(userId).sanitized
                 && db.requests[i.value].status == Pending
                 && r.db.requests == db.requests[i.value := db.requests[i.value].(status := if response == Str("accept") then Accepted else Rejected)]
    ensures response != Str("accept") && response != Str("reject") ==> r.reply == Err(400, "Invalid response")
    ensures (response == Str("accept") || response == Str("reject")) && ValidateUserId(userId).Invalid? ==>
              r.reply == Err(400, "Invalid user ID")
    ensures (response == Str("accept") || response == Str("reject")) && ValidateUserId(userId).Valid? && ValidateUserId(requestId).Invalid? ==>
              r.reply == Err(400, "Invalid request ID")
    ensures (response == Str("accept") || response == Str("reject")) && ValidateUserId(userId).Valid? && ValidateUserId(requestId).Valid? ==>
              var u := ValidateUserId(userId).sanitized;
              var f := FindRequest(db.requests, ValidateUserId(requestId).sanitized);
              && (f.None? ==> r.reply == Err(404, "Request not found"))
              && (f.Some? && db.requests[f.value].requested != u ==> r.reply == Err(403, "Request not found for this user"))
              && (f.Some? && db.requests[f.value].requested == u && db.requests[f.value].status != Pending ==>
                    r.reply == Err(400, "Request already " + StatusName(db.requests[f.value].status)))
              && (f.Some? && db.requests[f.value].requested == u && db.requests[f.value].status == Pending ==>
                    r == Answer(db, f.value, response == Str("accept"), now, time) && r.reply.Ok?)
  {
    if response != Str("accept") && response != Str("reject") then ChatStep(Err(400, "Invalid response"), db, [])
    else
      var uv := ValidateUserId(userId);
      var iv := ValidateUserId(requestId);
      if uv.Invalid? then ChatStep(Err(400, uv.error), db, [])
      else if iv.Invalid? then ChatStep(Err(400, "Invalid request ID"), db, [])
      else
        var u := uv.sanitized;
        match FindRequest(db.requests, iv.sanitized)
        case None => ChatStep(Err(404, "Request not found"), db, [])
        case Some(i) =>
          var req := db.requests[i];
          if req.requested != u then ChatStep(Err(403, "Request not found for this user"), db, [])
          else if req.status != Pending then ChatStep(Err(400, "Request already " + StatusName(req.status)), db, [])
          else Answer(db, i, response == Str("accept"), now, time)
  }

  /**
   * The pending request at `i` answered by its recipient: accepted (the
   * pair's room ensured, both users told, a notice posted to the
   * requester) or rejected (the requester told).
   */
  function Answer(db: Db, i: nat, accept: bool, now: int, time: string): (r: ChatStep<RespondReply>)
    requires i < |db.requests|
    ensures r.reply.Ok?
    ensures r.db.requests == db.requests[i := db.requests[i].(status := if accept then Accepted else Rejected)]
    ensures !accept ==>
              var q := db.requests[i].requester;
              r == ChatStep(Ok(RespondReply("reject", None)),
                            db.(requests := r.db.requests),
                            [Emit(ToRoom(UserRoomOf(q)), RejectedEventName(q), ChatRejected), Emit(ToAll, RejectedEventName(q), ChatRejected)])
    ensures accept ==>
              var req := db.requests[i];
              && r.reply.value.status == "accept" && r.reply.value.roomId.Some?
              && (exists x :: x in r.db.rooms && x.id == r.reply.value.roomId.value && x.active
                                && SamePair(x.user1, x.user2, req.requester, req.requested))
              && (FindActiveRoom(db.rooms, req.requester, req.requested).Some? ==>
                    r.reply.value.roomId == Some(FindActiveRoom(db.rooms, req.requester, req.requested).value.id) && r.db.rooms == db.rooms)
              && (FindActiveRoom(db.rooms, req.requester, req.requested).None? ==>
                    r.reply.value.roomId == Some(db.nextRoomId)
                    && r.db.rooms == db.rooms + [PrivateRoom(db.nextRoomId, RoomName(req.requester, req.requested), req.requester, req.requested, true)])
              && r.db.ledger == db.ledger && r.db.usernames == db.usernames && r.db.nextRequestId == db.nextRequestId
    ensures accept ==>
              var req := db.requests[i];
              var notice := ChatAccepted(r.reply.value.roomId.value, req.requester, req.requested, now);
              var posted := PostNotice(db, r.reply.value.roomId.value, AcceptText(db, req.requested), req.requester, now, time);
              && r.db.messages == posted.db.messages && r.db.nextMessageId == posted.db.nextMessageId
              && r.emits == [ Emit(ToRoom(UserRoomOf(req.requester)), AcceptedEventName(req.requester), notice),
                              Emit(ToRoom(UserRoomOf(req.requested)), AcceptedEventName(req.requested), notice),
                              Emit(ToAll, AcceptedEventName(req.requester), notice),
                              Emit(ToAll, AcceptedEventName(req.requested), notice) ] + posted.emits
  {
    var req := db.requests[i];
    if accept then
      var db1 := db.(requests := db.requests[i := req.(status := Accepted)]);
      var room := EnsureRoom(db1, req.requester, req.requested);
      var notice := ChatAccepted(room.roomId, req.requester, req.requested, now);
      var pushes := [ Emit(ToRoom(UserRoomOf(req.requester)), AcceptedEventName(req.requester), notice),
                      Emit(ToRoom(UserRoomOf(req.requested)), AcceptedEventName(req.requested), notice),
                      Emit(ToAll, AcceptedEventName(req.requester), notice),
                      Emit(ToAll, AcceptedEventName(req.requested), notice) ];
      var posted := PostNotice(room.db, room.roomId, AcceptText(db, req.requested), req.requester, now, time);
      PostNoticeReadsMessages(room.db, db, room.roomId, AcceptText(db, req.requested), req.requester, now, time);
      ChatStep(Ok(RespondReply("accept", Some(room.roomId))), posted.db, pushes + posted.emits)
    else
      var db1 := db.(requests := db.requests[i := req.(status := Rejected)]);
      var pushes := [ Emit(ToRoom(UserRoomOf(req.requester)), RejectedEventName(req.requester), ChatRejected),
                      Emit(ToAll, RejectedEventName(req.requester), ChatRejected) ];
      ChatStep(Ok(RespondReply("reject", None)), db1, pushes)
  }

  /** Answering a request changes its status only, so the pair stays unique. */
  lemma SetStatusKeepsValid(db: Db, i: nat, s: Status)
    requires DbValid(db) && i < |db.requests|
    ensures DbValid(db.(requests := db.requests[i := db.requests[i].(status := s)]))
  {
    var reqs := db.requests[i := db.requests[i].(status := s)];
    forall a, b | 0 <= a < b < |reqs|
      ensures !SamePair(reqs[a].requester, reqs[a].requested, reqs[b].requester, reqs[b].requested)
    {
      assert reqs[a].requester == db.requests[a].requester && reqs[a].requested == db.requests[a].requested;
      assert reqs[b].requester == db.requests[b].requester && reqs[b].requested == db.requests[b].requested;
    }
  }

  lemma RespondChatKeepsValid(db: Db, requestId: JsValue, userId: JsValue, response: JsValue, now: int, time: string)
    requires DbValid(db)
    ensures DbValid(RespondChat(db, requestId, userId, response, now, time).db)
  {
    var r := RespondChat(db, requestId, userId, response, now, time);
    if r.reply.Ok? {
      var i := FindRequest(db.requests, ValidateUserId(requestId).sanitized).value;
      AnswerKeepsValid(db, i, response == Str("accept"), now, time);
    }
  }

  lemma AnswerKeepsValid(db: Db, i: nat, accept: bool, now: int, time: string)
    requires DbValid(db) && i < |db.requests|
    ensures DbValid(Answer(db, i, accept, now, time).db)
  {
    var req := db.requests[i];
    SetStatusKeepsValid(db, i, if accept then Accepted else Rejected);
    if accept {
      var db1 := db.(requests := db.requests[i := req.(status := Accepted)]);
      EnsureRoomKeepsValid(db1, req.requester, req.requested);
      var room := EnsureRoom(db1, req.requester, req.requested);
      PostNoticeKeepsValid(room.db, room.roomId, AcceptText(db, req.requested), req.requester, now, time);
    }
  }

  /**
   * A request is answered once: answering it again, either way, is
   * refused with "Request already accepted" or "Request already rejected".
   */
  lemma AnswerOnce(db: Db, requestId: JsValue, userId: JsValue, response: JsValue, response2: JsValue, now: int, time: string)
    requires RespondChat(db, requestId, userId, response, now, time).reply.Ok?
    requires response2 == Str("accept") || response2 == Str("reject")
    ensures var first := RespondChat(db, requestId, userId, response, now, time);
            var second := RespondChat(first.db, requestId, userId, response2, now, time);
            second.reply == Err(400, "Request already " + (if response == Str("accept") then "accepted" else "rejected"))
  {
    var id := ValidateUserId(requestId).sanitized;
    var i := FindRequest(db.requests, id).value;
    var st := if response == Str("accept") then Accepted else Rejected;
    var first := RespondChat(db, requestId, userId, response, now, time);
    FindRequestIgnoresStatus(db.requests, i, st, id);
    AlreadyAnswered(first.db, requestId, userId, response2, now, time, i);
  }

  /** Responding to a request that is no longer pending changes nothing and names its status. */
  lemma AlreadyAnswered(db: Db, requestId: JsValue, userId: JsValue, response: JsValue, now: int, time: string, i: nat)
    requires response == Str("accept") || response == Str("reject")
    requires ValidateUserId(userId).Valid? && ValidateUserId(requestId).Valid?
    requires FindRequest(db.requests, ValidateUserId(requestId).sanitized) == Some(i)
    requires i < |db.requests|
    requires db.requests[i].requested == ValidateUserId(userId).sanitized
    requires db.requests[i].status != Pending
    ensures RespondChat(db, requestId, userId, response, now, time) == ChatStep(Err(400, "Request already " + StatusName(db.requests[i].status)), db, [])
  {
  }

  /** Under the invariant the lookup by id finds the one row with that id. */
  lemma FindRequestUnique(reqs: seq<ChatRequest>, next: nat, k: nat)
    requires RequestsValid(reqs, next) && k < |reqs|
    ensures FindRequest(reqs, reqs[k].id) == Some(k)
  {
    assert reqs[k] in reqs;
  }

  /**
   * The handshake completes: once `a` has asked `b` (unless a request of
   * the pair is already pending), `b` answering that request succeeds. The
   * row ends up accepted or rejected, and an accept answers with the very
   * room the request answered with.
   */
  lemma RequestThenRespond(db: Db, a: int, b: int, accept: bool, now: int, time: string, now2: int, time2: string)
    requires DbValid(db) && a > 0 && b > 0 && a != b
    requires FindRequestForPair(db.requests, a, b).None? || db.requests[FindRequestForPair(db.requests, a, b).value].status != Pending
    ensures var first := RequestChat(db, Num(a), Num(b), now, time);
            && first.reply.Ok?
            && var second := RespondChat(first.db, Num(first.reply.value.requestId), Num(b), Str(if accept then "accept" else "reject"), now2, time2);
            && second.reply.Ok?
            && (accept ==> second.reply.value.roomId == Some(first.reply.value.roomId))
            && exists x :: x in second.db.requests && x.id == first.reply.value.requestId
                             && x.requester == a && x.requested == b && x.status == (if accept then Accepted else Rejected)
  {
    var k := RequestLeavesPendingRow(db, a, b, now, time);
    var first := RequestChat(db, Num(a), Num(b), now, time);
    RespondToRow(first.db, k, accept, now2, time2, first.reply.value.roomId);
  }

  /** The recipient answering the pending request at `k` by its id gets its answer; accepting names the pair's active room. */
  lemma RespondToRow(db: Db, k: nat, accept: bool, now: int, time: string, roomId: nat)
    requires DbValid(db) && k < |db.requests| && db.requests[k].status == Pending && db.requests[k].requested > 0
    requires exists y :: y in db.rooms && y.id == roomId && y.active
                         && SamePair(y.user1, y.user2, db.requests[k].requester, db.requests[k].requested)
    ensures var req := db.requests[k];
            var second := RespondChat(db, Num(req.id), Num(req.requested), Str(if accept then "accept" else "reject"), now, time);
            && second.reply.Ok?
            && (accept ==> second.reply.value.roomId == Some(roomId))
            && exists x :: x in second.db.requests && x.id == req.id && x.requester == req.requester
                             && x.requested == req.requested && x.status == (if accept then Accepted else Rejected)
  {
    RespondToPendingRow(db, k, accept, now, time);
    AnswerLeavesRow(db, k, accept, now, time);
    if accept {
      AcceptFindsRoom(db, k, roomId, now, time);
    }
  }

  /** Answering the request at `k` keeps its row, with the new status. */
  lemma AnswerLeavesRow(db: Db, k: nat, accept: bool, now: int, time: string)
    requires k < |db.requests|
    ensures exists x :: x in Answer(db, k, accept, now, time).db.requests && x.id == db.requests[k].id
                        && x.requester == db.requests[k].requester && x.requested == db.requests[k].requested
                        && x.status == (if accept then Accepted else Rejected)
  {
    var second := Answer(db, k, accept, now, time);
    assert second.db.requests[k] in second.db.requests;
  }

  /** Accepting a request answers with the pair's one active room. */
  lemma AcceptFindsRoom(db: Db, k: nat, roomId: nat, now: int, time: string)
    requires DbValid(db) && k < |db.requests|
    requires exists x :: x in db.rooms && x.id == roomId && x.active
                         && SamePair(x.user1, x.user2, db.requests[k].requester, db.requests[k].requested)
    ensures Answer(db, k, true, now, time).reply.value.roomId == Some(roomId)
  {
    var req := db.requests[k];
    var x :| x in db.rooms && x.id == roomId && x.active && SamePair(x.user1, x.user2, req.requester, req.requested);
    var y := FindActiveRoom(db.rooms, req.requester, req.requested);
    assert y.Some?;
    ActiveRoomUnique(db.rooms, db.nextRoomId, x, y.value);
  }

  /** A request from `a` to `b`, when no request of the pair is pending, leaves a pending row from `a` to `b` at `k`. */
  lemma RequestLeavesPendingRow(db: Db, a: int, b: int, now: int, time: string) returns (k: nat)
    requires DbValid(db) && a > 0 && b > 0 && a != b
    requires FindRequestForPair(db.requests, a, b).None? || db.requests[FindRequestForPair(db.requests, a, b).value].status != Pending
    ensures var first := RequestChat(db, Num(a), Num(b), now, time);
            && first.reply.Ok? && DbValid(first.db)
            && k < |first.db.requests|
            && first.db.requests[k] == ChatRequest(first.reply.value.requestId, a, b, Pending, now)
            && exists y :: y in first.db.rooms && y.id == first.reply.value.roomId && y.active && SamePair(y.user1, y.user2, a, b)
  {
    UserIdRoundTrip(a);
    UserIdRoundTrip(b);
    assert Num(a) != Num(b);
    RequestChatKeepsValid(db, Num(a), Num(b), now, time);
    var first := RequestChat(db, Num(a), Num(b), now, time);
    assert first == OpenChat(db, a, b, now, time);
    k := if FindRequestForPair(db.requests, a, b).None? then |db.requests| else FindRequestForPair(db.requests, a, b).value;
  }

  /** The recipient of the pending request at `k`, answering it by its id, gets the answer step for `k`. */
  lemma RespondToPendingRow(db: Db, k: nat, accept: bool, now: int, time: string)
    requires DbValid(db) && k < |db.requests| && db.requests[k].status == Pending && db.requests[k].requested > 0
    ensures RespondChat(db, Num(db.requests[k].id), Num(db.requests[k].requested), Str(if accept then "accept" else "reject"), now, time)
         == Answer(db, k, accept, now, time)
  {
    FindRequestUnique(db.requests, db.nextRequestId, k);
    UserIdRoundTrip(db.requests[k].id);
    UserIdRoundTrip(db.requests[k].requested);
  }

  /** Changing a request's status does not move any id. */
  lemma {:induction false} FindRequestIgnoresStatus(reqs: seq<ChatRequest>, i: nat, st: Status, id: int)
    requires i < |reqs|
    ensures FindRequest(reqs[i := reqs[i].(status := st)], id) == FindRequest(reqs, id)
  {
    var r2 := reqs[i := reqs[i].(status := st)];
    if reqs[0].id != id && i > 0 {
      assert r2[1..] == reqs[1..][i - 1 := reqs[i].(status := st)];
      FindRequestIgnoresStatus(reqs[1..], i - 1, st, id);
    } else if reqs[0].id != id {
      assert r2[1..] == reqs[1..];
    }
  }

  /** `GET /api/private-chat/room`: both ids must validate; the pair's active room, created if needed. */
  function GetPrivateRoom(db: Db, user1Id: JsValue, user2Id: JsValue): (r: ChatStep<nat>)
    ensures r.emits == []
    ensures r.reply.Err? <==> ValidateUserId(user1Id).Invalid? || ValidateUserId(user2Id).Invalid?
    ensures r.reply.Err? ==> r.reply == Err(400, "Invalid user IDs") && r.db == db
    ensures r.reply.Ok? ==>
              exists x :: x in r.db.rooms && x.id == r.reply.value && x.active && SamePair(x.user1, x.user2, ValidateUserId(user1Id).sanitized, ValidateUserId(user2Id).sanitized)
  {
    var v1 := ValidateUserId(user1Id);
    var v2 := ValidateUserId(user2Id);
    if v1.Invalid? || v2.Invalid? then ChatStep(Err(400, "Invalid user IDs"), db, [])
    else
      var room := EnsureRoom(db, v1.sanitized, v2.sanitized);
      ChatStep(Ok(room.roomId), room.db, [])
  }

  /** Looking up a private room keeps the database invariant. */
  lemma GetPrivateRoomKeepsValid(db: Db, user1Id: JsValue, user2Id: JsValue)
    requires DbValid(db)
    ensures DbValid(GetPrivateRoom(db, user1Id, user2Id).db)
  {
    var v1 := ValidateUserId(user1Id);
    var v2 := ValidateUserId(user2Id);
    if v1.Valid? && v2.Valid? {
      EnsureRoomKeepsValid(db, v1.sanitized, v2.sanitized);
    }
  }

  /** Under the invariant two active rooms of the same pair are one room. */
  lemma ActiveRoomUnique(rooms: seq<PrivateRoom>, next: nat, x: PrivateRoom, y: PrivateRoom)
    requires RoomsValid(rooms, next)
    requires x in rooms && y in rooms && x.active && y.active
    requires SamePair(x.user1, x.user2, y.user1, y.user2)
    ensures x == y
  {
    var i :| 0 <= i < |rooms| && rooms[i] == x;
    var j :| 0 <= j < |rooms| && rooms[j] == y;
    assert i == j by {
      assert SamePair(rooms[i].user1, rooms[i].user2, rooms[j].user1, rooms[j].user2);
      assert SamePair(rooms[j].user1, rooms[j].user2, rooms[i].user1, rooms[i].user2);
    }
  }

  /** Looking the room up twice, in either order of the two users, gives the same room. */
  lemma GetPrivateRoomStable(db: Db, user1Id: JsValue, user2Id: JsValue)
    requires DbValid(db)
    requires GetPrivateRoom(db, user1Id, user2Id).reply.Ok?
    ensures var first := GetPrivateRoom(db, user1Id, user2Id);
            var second := GetPrivateRoom(first.db, user2Id, user1Id);
            second.db == first.db && second.reply == first.reply
  {
    EnsureRoomStable(db, ValidateUserId(user1Id).sanitized, ValidateUserId(user2Id).sanitized);
  }

  /** A room ensured for `a` and `b` is the one found again for `b` and `a`. */
  lemma EnsureRoomStable(db: Db, a: int, b: int)
    requires DbValid(db)
    ensures var first := EnsureRoom(db, a, b);
            EnsureRoom(first.db, b, a) == first
  {
    var first := EnsureRoom(db, a, b);
    EnsureRoomKeepsValid(db, a, b);
    var x :| x in first.db.rooms && x.id == first.roomId && x.active && SamePair(x.user1, x.user2, a, b);
    assert SamePair(x.user1, x.user2, b, a);
    var y := FindActiveRoom(first.db.rooms, b, a).value;
    ActiveRoomUnique(first.db.rooms, first.db.nextRoomId, x, y);
  }
}
