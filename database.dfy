/**
 * The server's database as one value: the messages table and the delivery
 * ledger, the private chat rooms and requests, and the user names the
 * handlers look up. Every handler step maps a database to a database.
 */
module Database {
  import opened Wrappers
  import opened Seqs
  import opened Store

  datatype Status = Pending | Accepted | Rejected

  function StatusName(s: Status): string {
    match s
    case Pending => "pending"
    case Accepted => "accepted"
    case Rejected => "rejected"
  }

  /** A row of `private_chat_requests`. */
  datatype ChatRequest = ChatRequest(id: nat, requester: int, requested: int, status: Status, createdAt: int)

  /** A row of `private_chat_rooms`. */
  datatype PrivateRoom = PrivateRoom(id: nat, name: string, user1: int, user2: int, active: bool)

  datatype Db = Db(
    messages: seq<Row>,
    nextMessageId: nat,
    ledger: Ledger,
    rooms: seq<PrivateRoom>,
    nextRoomId: nat,
    requests: seq<ChatRequest>,
    nextRequestId: nat,
    usernames: map<int, string>)

  /** The two ids are the same unordered pair. */
  predicate SamePair(a1: int, b1: int, a2: int, b2: int) {
    (a1 == a2 && b1 == b2) || (a1 == b2 && b1 == a2)
  }

  ghost predicate RoomsValid(rooms: seq<PrivateRoom>, nextRoomId: nat) {
    && (forall i :: 0 <= i < |rooms| ==> 0 < rooms[i].id < nextRoomId)
    && (forall i, j :: 0 <= i < j < |rooms| ==> rooms[i].id < rooms[j].id)
    && (forall i, j :: 0 <= i < j < |rooms| && rooms[i].active && rooms[j].active ==>
          !SamePair(rooms[i].user1, rooms[i].user2, rooms[j].user1, rooms[j].user2))
  }

  ghost predicate RequestsValid(requests: seq<ChatRequest>, nextRequestId: nat) {
    && (forall i :: 0 <= i < |requests| ==> 0 < requests[i].id < nextRequestId)
    && (forall i, j :: 0 <= i < j < |requests| ==> requests[i].id < requests[j].id)
    && (forall i, j :: 0 <= i < j < |requests| ==>
          !SamePair(requests[i].requester, requests[i].requested, requests[j].requester, requests[j].requested))
  }

  /**
   * The database invariant: message ids increase, client tokens are unique
   * per room, ledger rows name existing message ids, and there is at most
   * one request and one active room per pair of users.
   */
  ghost predicate DbValid(db: Db) {
    && db.nextMessageId > 0
    && WellFormed(db.messages, db.nextMessageId)
    && UniqueTokens(db.messages)
    && (forall k :: k in db.ledger ==> k.0 < db.nextMessageId)
    && RoomsValid(db.rooms, db.nextRoomId)
    && db.nextRoomId > 0
    && RequestsValid(db.requests, db.nextRequestId)
    && db.nextRequestId > 0
  }

  /** `SELECT ... FROM private_chat_rooms WHERE id = ?` */
  function RoomById(rooms: seq<PrivateRoom>, id: int): (r: Option<PrivateRoom>)
    ensures r.Some? ==> r.value in rooms && r.value.id == id
    ensures r.None? ==> forall x :: x in rooms ==> x.id != id
  {
    if rooms == [] then None
    else if rooms[0].id == id then Some(rooms[0])
    else RoomById(rooms[1..], id)
  }

  /** The first active room of the pair, in either order. */
  function FindActiveRoom(rooms: seq<PrivateRoom>, a: int, b: int): (r: Option<PrivateRoom>)
    ensures r.Some? ==> r.value in rooms && r.value.active && SamePair(r.value.user1, r.value.user2, a, b)
    ensures r.None? ==> forall x :: x in rooms && x.active ==> !SamePair(x.user1, x.user2, a, b)
  {
    if rooms == [] then None
    else if rooms[0].active && SamePair(rooms[0].user1, rooms[0].user2, a, b) then Some(rooms[0])
    else FindActiveRoom(rooms[1..], a, b)
  }

  /** The position of the first request of the pair, in either order. */
  function FindRequestForPair(requests: seq<ChatRequest>, a: int, b: int): (r: Option<nat>)
    ensures r.Some? ==> r.value < |requests| && SamePair(requests[r.value].requester, requests[r.value].requested, a, b)
    ensures r.None? ==> forall x :: x in requests ==> !SamePair(x.requester, x.requested, a, b)
  {
    if requests == [] then None
    else if SamePair(requests[0].requester, requests[0].requested, a, b) then Some(0)
    else match FindRequestForPair(requests[1..], a, b)
      case None => None
      case Some(i) => Some(i + 1)
  }

  /** The position of the request with this id. */
  function FindRequest(requests: seq<ChatRequest>, id: int): (r: Option<nat>)
    ensures r.Some? ==> r.value < |requests| && requests[r.value].id == id
    ensures r.None? ==> forall x :: x in requests ==> x.id != id
  {
    if requests == [] then None
    else if requests[0].id == id then Some(0)
    else match FindRequest(requests[1..], id)
      case None => None
      case Some(i) => Some(i + 1)
  }
}
