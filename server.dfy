/**
 * The chat server as one object: the database, the `userSocketMap`
 * presence map, each open socket's connection state (`currentRoom`,
 * `currentUserId` and the socket.io rooms it joined) and the log of events
 * it emitted. Each socket event and HTTP request is a method.
 */
module ChatServer {
  import opened Wrappers
  import opened Js
  import opened Seqs
  import opened Validation
  import opened Store
  import opened Events
  import opened Database
  import opened Presence
  import opened Sending
  import opened ChatRequests

  /**
   * The state a connection handler closes over. An empty `currentRoom`
   * stands for `null`: both are falsy, which is all the handlers test.
   */
  datatype Conn = Conn(currentRoom: string, currentUserId: JsValue, joined: set<string>)

  /** The empty database; every table's ids start at 1. */
  function EmptyDb(usernames: map<int, string>): (db: Db)
    ensures DbValid(db)
  {
    Db([], 1, map[], [], 1, [], 1, usernames)
  }

  /** The connection after it identified as `userId`: a truthy id also joins `user_<id>`. */
  function Identify(c: Conn, userId: JsValue): Conn {
    if Truthy(userId) then c.(currentUserId := userId, joined := c.joined + {UserRoom(userId)}) else c
  }

  /** `join_room`: leave the current room when there is one, join the new one. */
  function EnterRoom(c: Conn, roomId: string): (r: Conn)
    ensures roomId in r.joined && r.currentRoom == roomId
    ensures c.currentRoom != "" && c.currentRoom != roomId ==> c.currentRoom !in r.joined
    ensures forall x :: x in c.joined && x != c.currentRoom ==> x in r.joined
  {
    var kept := if c.currentRoom != "" then c.joined - {c.currentRoom} else c.joined;
    c.(currentRoom := roomId, joined := kept + {roomId})
  }

  /** The invariant only bounds the ledger's keys, so new delivery marks keep it. */
  lemma LedgerKeysKeepValid(db: Db, l: Ledger)
    requires DbValid(db) && l.Keys == db.ledger.Keys
    ensures DbValid(db.(ledger := l))
  {
    forall k | k in l
      ensures k.0 < db.nextMessageId
    {
      assert k in db.ledger.Keys;
    }
  }

  /** The step `GET /api/private-chat/room` takes on the database, which keeps the invariant. */
  method ServeRoom(db: Db, user1Id: JsValue, user2Id: JsValue) returns (s: ChatStep<nat>)
    requires DbValid(db)
    ensures s == ChatRequests.GetPrivateRoom(db, user1Id, user2Id) && DbValid(s.db)
  {
    GetPrivateRoomKeepsValid(db, user1Id, user2Id);
    s := ChatRequests.GetPrivateRoom(db, user1Id, user2Id);
  }

  /** A send step, by either entry point, which keeps the invariant. */
  method ServeSend(db: Db, via: Via, p: Payload, now: int) returns (s: SendStep)
    requires DbValid(db)
    ensures s == SendSpec(db, via, p, now) && DbValid(s.db)
  {
    SendKeepsDbValid(db, via, p, now);
    s := SendSpec(db, via, p, now);
  }

  /** The step `POST /api/private-chat/request` takes on the database, which keeps the invariant. */
  method ServeRequest(db: Db, requesterId: JsValue, requestedId: JsValue, now: int, time: string) returns (s: ChatStep<RequestReply>)
    requires DbValid(db)
    ensures s == ChatRequests.RequestChat(db, requesterId, requestedId, now, time) && DbValid(s.db)
  {
    RequestChatKeepsValid(db, requesterId, requestedId, now, time);
    s := ChatRequests.RequestChat(db, requesterId, requestedId, now, time);
  }

  /** The step `POST /api/private-chat/respond` takes on the database, which keeps the invariant. */
  method ServeRespond(db: Db, requestId: JsValue, userId: JsValue, response: JsValue, now: int, time: string) returns (s: ChatStep<RespondReply>)
    requires DbValid(db)
    ensures s == ChatRequests.RespondChat(db, requestId, userId, response, now, time) && DbValid(s.db)
  {
    RespondChatKeepsValid(db, requestId, userId, response, now, time);
    s := ChatRequests.RespondChat(db, requestId, userId, response, now, time);
  }

  class Server {
    var db: Db
    var userSockets: SocketMap
    var conns: map<SocketId, Conn>
    var outbox: seq<Emit>

    ghost predicate Valid()
      reads this
    {
      DbValid(db) && PresenceValid(userSockets)
    }

    constructor(usernames: map<int, string>)
      ensures Valid()
      ensures db == EmptyDb(usernames) && userSockets == map[] && conns == map[] && outbox == []
    {
      db := EmptyDb(usernames);
      userSockets := map[];
      conns := map[];
      outbox := [];
    }

    /** `io.on('connection')`: a socket is in its own room and in no other. */
    method Connect(sid: SocketId)
      requires sid !in conns
      modifies this`conns
      ensures conns == old(conns)[sid := Conn("", Null, {sid})]
    {
      conns := conns[sid := Conn("", Null, {sid})];
    }

    /** `register_user`: a truthy user id adds the socket to that user's set. */
    method RegisterUser(sid: SocketId, userId: JsValue)
      requires Valid() && sid in conns
      modifies this`userSockets, this`conns
      ensures Valid()
      ensures userSockets == if Truthy(userId) then AddSocket(old(userSockets), userId, sid) else old(userSockets)
      ensures conns == old(conns)[sid := Identify(old(conns)[sid], userId)]
    {
      if Truthy(userId) {
        AddKeepsValid(userSockets, userId, sid);
        userSockets := AddSocket(userSockets, userId, sid);
      }
      conns := conns[sid := Identify(conns[sid], userId)];
    }

    /** `join_room`: switch rooms, then register the user id when one is given. */
    method JoinRoom(sid: SocketId, roomId: string, userId: JsValue)
      requires Valid() && sid in conns
      modifies this`userSockets, this`conns
      ensures Valid()
      ensures userSockets == if Truthy(userId) then AddSocket(old(userSockets), userId, sid) else old(userSockets)
      ensures conns == old(conns)[sid := Identify(EnterRoom(old(conns)[sid], roomId), userId)]
    {
      var c := EnterRoom(conns[sid], roomId);
      if Truthy(userId) {
        AddKeepsValid(userSockets, userId, sid);
        userSockets := AddSocket(userSockets, userId, sid);
      }
      conns := conns[sid := Identify(c, userId)];
    }

    /**
     * `disconnect`: the rest of the current room hears `user_left`, and the
     * socket leaves the set of the last user id it registered.
     */
    method Disconnect(sid: SocketId)
      requires Valid() && sid in conns
      modifies this`userSockets, this`conns, this`outbox
      ensures Valid()
      ensures var c := old(conns)[sid];
              && outbox == old(outbox) + (if c.currentRoom != "" then [Emit(ToRoomExcept(c.currentRoom, sid), "user_left", UserLeft(c.currentUserId))] else [])
              && userSockets == (if Truthy(c.currentUserId) then RemoveSocket(old(userSockets), c.currentUserId, sid) else old(userSockets))
              && conns == old(conns) - {sid}
    {
      var c := conns[sid];
      if c.currentRoom != "" {
        outbox := outbox + [Emit(ToRoomExcept(c.currentRoom, sid), "user_left", UserLeft(c.currentUserId))];
      }
      if Truthy(c.currentUserId) {
        RemoveKeepsValid(userSockets, c.currentUserId, sid);
        userSockets := RemoveSocket(userSockets, c.currentUserId, sid);
      }
      conns := conns - {sid};
    }

    /**
     * `send_message`: the reply is what the acknowledgement callback gets;
     * a refused send answers nobody but the socket's `error` listener.
     */
    method SendMessage(sid: SocketId, p: Payload, now: int) returns (reply: SendReply)
      requires Valid()
      modifies this`db, this`outbox
      ensures Valid()
      ensures var s := SendSpec(old(db), Socket(sid), p, now);
              reply == s.reply && db == s.db && outbox == old(outbox) + s.emits
    {
      var s := ServeSend(db, Socket(sid), p, now);
      db := s.db;
      outbox := outbox + s.emits;
      reply := s.reply;
    }

    /** `POST /api/messages`: the same step; a refusal is a 400 with the validation message. */
    method PostMessage(p: Payload, now: int) returns (res: Result<Row>)
      requires Valid()
      modifies this`db, this`outbox
      ensures Valid()
      ensures var s := SendSpec(old(db), Http, p, now);
              && db == s.db && outbox == old(outbox) + s.emits
              && (s.reply.Refused? ==> res == Err(400, s.reply.error))
              && (s.reply.Delivered? ==> res == Ok(s.reply.row))
    {
      var s := ServeSend(db, Http, p, now);
      db := s.db;
      outbox := outbox + s.emits;
      match s.reply
      case Refused(e) => res := Err(400, e);
      case Delivered(row, _) => res := Ok(row);
    }

    /**
     * `GET /api/messages/:roomId`: the room is validated, then the target
     * user when the query names one; the rows are the room's history.
     */
    method GetMessages(roomId: JsValue, sinceId: JsValue, userId: JsValue, now: int) returns (res: Result<seq<Row>>)
      requires Valid()
      ensures res.Ok? <==> ValidateRoomId(roomId).Valid? && (userId == Undefined || ValidateUserId(userId).Valid?)
      ensures res.Err? ==> res.status == 400
      ensures res.Ok? ==>
                var target := if userId == Undefined then None else Some(ValidateUserId(userId).sanitized);
                forall x :: x in res.value <==>
                  x in db.messages && Selected(x, ValidateRoomId(roomId).sanitized, PositiveDecimal(sinceId), target) && !RowExpired(x, now)
      ensures res.Ok? ==>
                var target := if userId == Undefined then None else Some(ValidateUserId(userId).sanitized);
                res.value == History(db.messages, ValidateRoomId(roomId).sanitized, PositiveDecimal(sinceId), target, now)
      ensures res.Ok? ==> Increasing(res.value, RowKey)
    {
      var room := ValidateRoomId(roomId);
      if room.Invalid? {
        return Err(400, room.error);
      }
      var target: Option<int> := None;
      if userId != Undefined {
        var user := ValidateUserId(userId);
        if user.Invalid? {
          return Err(400, user.error);
        }
        target := Some(user.sanitized);
      }
      HistoryOrdered(db.messages, db.nextMessageId, room.sanitized, PositiveDecimal(sinceId), target, now);
      res := Ok(History(db.messages, room.sanitized, PositiveDecimal(sinceId), target, now));
    }

    /** `GET /api/messages/undelivered/:userId` */
    method Undelivered(userId: JsValue, now: int) returns (res: Result<seq<Row>>)
      requires Valid()
      modifies this`db
      ensures Valid()
      ensures ValidateUserId(userId).Invalid? ==> res == Err(400, ValidateUserId(userId).error) && db == old(db)
      ensures ValidateUserId(userId).Valid? ==>
                var d := Drain(old(db).messages, old(db).ledger, ValidateUserId(userId).sanitized, now);
                res == Ok(d.returned) && db == old(db).(ledger := d.ledger)
    {
      var user := ValidateUserId(userId);
      if user.Invalid? {
        return Err(400, user.error);
      }
      var d := Drain(db.messages, db.ledger, user.sanitized, now);
      db := db.(ledger := d.ledger);
      res := Ok(d.returned);
    }

    /** `POST /api/messages/ack`: the user id is validated before the list. */
    method Ack(userId: JsValue, messageIds: Option<seq<JsValue>>, now: int) returns (res: Result<nat>)
      requires Valid()
      modifies this`db
      ensures Valid()
      ensures ValidateUserId(userId).Invalid? ==> res == Err(400, ValidateUserId(userId).error) && db == old(db)
      ensures ValidateUserId(userId).Valid? ==>
                var a := Store.Ack(old(db).ledger, ValidateUserId(userId).sanitized, messageIds, now);
                res == a.0 && db == old(db).(ledger := a.1)
    {
      var user := ValidateUserId(userId);
      if user.Invalid? {
        return Err(400, user.error);
      }
      var a := Store.Ack(db.ledger, user.sanitized, messageIds, now);
      LedgerKeysKeepValid(db, a.1);
      db := db.(ledger := a.1);
      res := a.0;
    }

    /** `POST /api/private-chat/request` */
    method RequestChat(requesterId: JsValue, requestedId: JsValue, now: int, time: string) returns (res: Result<RequestReply>)
      requires Valid()
      modifies this`db, this`outbox
      ensures Valid()
      ensures var s := ChatRequests.RequestChat(old(db), requesterId, requestedId, now, time);
              res == s.reply && db == s.db && outbox == old(outbox) + s.emits
    {
      var s := ServeRequest(db, requesterId, requestedId, now, time);
      db := s.db;
      outbox := outbox + s.emits;
      res := s.reply;
    }

    /** `POST /api/private-chat/respond` */
    method RespondChat(requestId: JsValue, userId: JsValue, response: JsValue, now: int, time: string) returns (res: Result<RespondReply>)
      requires Valid()
      modifies this`db, this`outbox
      ensures Valid()
      ensures var s := ChatRequests.RespondChat(old(db), requestId, userId, response, now, time);
              res == s.reply && db == s.db && outbox == old(outbox) + s.emits
    {
      var s := ServeRespond(db, requestId, userId, response, now, time);
      db := s.db;
      outbox := outbox + s.emits;
      res := s.reply;
    }

    /** `GET /api/private-chat/room` */
    method GetPrivateRoom(user1Id: JsValue, user2Id: JsValue) returns (res: Result<nat>)
      requires Valid()
      modifies this`db
      ensures Valid()
      ensures var s := ChatRequests.GetPrivateRoom(old(db), user1Id, user2Id);
              res == s.reply && db == s.db
    {
      var s := ServeRoom(db, user1Id, user2Id);
      db := s.db;
      res := s.reply;
    }
  }
}
