/**
 * What the server pushes over socket.io, recorded in order instead of
 * delivered: a target (a room, one socket, every socket, or a room minus
 * its sender), an event name and a payload.
 */
module Events {
  import opened Js
  import opened Store

  type SocketId = string

  datatype Target =
    | ToRoom(room: string)
    | ToSocket(sid: SocketId)
    | ToAll
    | ToRoomExcept(room: string, except: SocketId)

  datatype Event =
    | ReceiveMessage(row: Row)
    | ErrorEvent(message: string)
    | UserLeft(userId: JsValue)
    | ChatRequestNotice(requestId: nat, requesterId: int, requesterName: string, createdAt: int)
    | ChatAccepted(roomId: nat, requesterId: int, requestedId: int, createdAt: int)
    | ChatRejected

  datatype Emit = Emit(to: Target, name: string, event: Event)

  /** The per-user room `user_<id>` every registered socket joins. */
  function UserRoom(u: JsValue): string {
    "user_" + ToStr(u)
  }

  function UserRoomOf(u: int): string {
    UserRoom(Num(u))
  }
}
