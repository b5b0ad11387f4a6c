/**
 * The server's `userSocketMap`: for each user id that identified itself,
 * the set of socket ids it is connected with. Keys are compared as a
 * JavaScript `Map` compares them, so the number 5 and the string "5" are
 * two users.
 */
module Presence {
  import opened Js
  import opened Events

  type SocketMap = map<JsValue, set<SocketId>>

  /** Only truthy user ids are ever added, and an empty set is always removed. */
  predicate PresenceValid(m: SocketMap) {
    forall u :: u in m ==> Truthy(u) && m[u] != {}
  }

  /** The sockets of `u`, none if `u` has no entry. */
  function SocketsOf(m: SocketMap, u: JsValue): set<SocketId> {
    if u in m then m[u] else {}
  }

  /** Creates the user's set when missing, then adds the socket to it. */
  function AddSocket(m: SocketMap, u: JsValue, sid: SocketId): (r: SocketMap)
    ensures r.Keys == m.Keys + {u}
    ensures SocketsOf(r, u) == SocketsOf(m, u) + {sid}
    ensures forall v :: v in m && v != u ==> r[v] == m[v]
  {
    m[u := SocketsOf(m, u) + {sid}]
  }

  /** Deletes the socket from the user's set and the user's key once the set is empty. */
  function RemoveSocket(m: SocketMap, u: JsValue, sid: SocketId): (r: SocketMap)
    ensures SocketsOf(r, u) == SocketsOf(m, u) - {sid}
    ensures u in r <==> SocketsOf(m, u) - {sid} != {}
    ensures forall v :: v != u ==> (v in r <==> v in m) && (v in m ==> r[v] == m[v])
  {
    if u !in m then m
    else if m[u] - {sid} == {} then m - {u}
    else m[u := m[u] - {sid}]
  }

  lemma AddKeepsValid(m: SocketMap, u: JsValue, sid: SocketId)
    requires PresenceValid(m) && Truthy(u)
    ensures PresenceValid(AddSocket(m, u, sid))
  {
  }

  lemma RemoveKeepsValid(m: SocketMap, u: JsValue, sid: SocketId)
    requires PresenceValid(m)
    ensures PresenceValid(RemoveSocket(m, u, sid))
  {
  }

  /**
   * Map cleanup: a socket that registers under a user and disconnects
   * leaves the map as it found it, the user's key included.
   */
  lemma RegisterThenDisconnectRestores(m: SocketMap, u: JsValue, sid: SocketId)
    requires PresenceValid(m)
    requires sid !in SocketsOf(m, u)
    ensures RemoveSocket(AddSocket(m, u, sid), u, sid) == m
  {
    var r := RemoveSocket(AddSocket(m, u, sid), u, sid);
    assert SocketsOf(r, u) == SocketsOf(m, u);
    assert u in r <==> u in m;
  }

  /**
   * The connection remembers only the last user id it registered, so a
   * socket registered as `u1` and then as `u2` stays in `u1`'s set after
   * it disconnects.
   */
  lemma ReRegisterLeavesStaleEntry(m: SocketMap, u1: JsValue, u2: JsValue, sid: SocketId)
    requires u1 != u2
    ensures sid in SocketsOf(RemoveSocket(AddSocket(AddSocket(m, u1, sid), u2, sid), u2, sid), u1)
  {
  }
}
