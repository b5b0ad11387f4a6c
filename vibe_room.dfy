/**
 * The chat room screen of the client: the message list it keeps, the
 * bookkeeping of the last id and the last synchronisations, the
 * notices it removes after two minutes, and what it asks of the server
 * on each event: a history response, an undelivered drain, a pushed
 * message, a poll tick, a send and the answers to it.
 *
 * Requests to the server, socket emits and timers are appended to the
 * `requests` outbox; their answers arrive as calls of the `On...`
 * methods. `now` is the clock reading at the call.
 */
module RoomClient {
  import opened Wrappers
  import opened Js
  import opened Seqs
  import opened Ephemeral
  import opened Validation
  import opened Reconcile
  import opened Merge
  import opened Delivery

  /** What the room asks for. */
  datatype Request =
    | JoinReq                               // emit join_room
    | RegisterReq                           // emit register_user
    | FetchReq(sinceId: int)                // GET /api/messages/:roomId, `sinceId` 0 for the whole history
    | UndeliveredReq                        // GET /api/messages/undelivered/:userId
    | AckReq(ids: seq<MsgId>)               // POST /api/messages/ack
    | SocketSend(token: string)             // emit send_message with an acknowledgement callback
    | PostReq(token: string, attempts: nat) // POST /api/messages, with the attempts read when it started
    | RetryTimer(token: string)             // the retry after MESSAGE_ACK_TIMEOUT_MS

  // ---- expiry of notices ----

  /** `!msg.id` is false. */
  predicate IdTruthy(id: MsgId) {
    match id
    case NumId(n) => n != 0
    case TokenId(t) => t != ""
  }

  /** `prev.filter(m => m.id !== id)` */
  function RemoveId(list: seq<Msg>, id: MsgId): (r: seq<Msg>)
    ensures forall m :: m in r <==> m in list && m.id != id
  {
    Filter(list, (m: Msg) => m.id != id)
  }

  /** The list and the ids whose removal timer is running. */
  datatype Expiry = Expiry(list: seq<Msg>, expiring: set<MsgId>)

  /**
   * `scheduleExpire`: a notice with an id and no timer yet is removed at
   * once when its two minutes are up, else gets a timer; anything else is
   * left alone.
   */
  function ScheduleExpire(x: Expiry, m: Msg, now: int): Expiry {
    if !IsEphemeralText(m.user, m.text) || !IdTruthy(m.id) || m.id in x.expiring then x
    else if ExpireDelay(m, now) <= 0 then Expiry(RemoveId(x.list, m.id), x.expiring)
    else Expiry(x.list, x.expiring + {m.id})
  }

  /**
   * Scheduling one message only adds timers and only removes; a notice
   * with an id ends with a timer or gone; other ids stay.
   */
  lemma ScheduleExpireEffect(x: Expiry, m: Msg, now: int)
    ensures var r := ScheduleExpire(x, m, now);
            && x.expiring <= r.expiring
            && (forall y :: y in r.list ==> y in x.list)
            && (IsEphemeralText(m.user, m.text) && IdTruthy(m.id) ==>
                  m.id in r.expiring || forall y :: y in r.list ==> y.id != m.id)
            && (forall y :: y in x.list && y.id != m.id ==> y in r.list)
  {
  }

  /** `ms.forEach(scheduleExpire)` */
  function ScheduleAll(x: Expiry, ms: seq<Msg>, now: int): Expiry
    decreases |ms|
  {
    if ms == [] then x else ScheduleExpire(ScheduleAll(x, ms[..|ms| - 1], now), ms[|ms| - 1], now)
  }

  /** Scheduling only adds timers and only removes messages. */
  lemma {:induction false} ScheduleAllShrinks(x: Expiry, ms: seq<Msg>, now: int)
    ensures var r := ScheduleAll(x, ms, now);
            x.expiring <= r.expiring && forall y :: y in r.list ==> y in x.list
    decreases |ms|
  {
    if ms != [] {
      ScheduleAllShrinks(x, ms[..|ms| - 1], now);
      ScheduleExpireEffect(ScheduleAll(x, ms[..|ms| - 1], now), ms[|ms| - 1], now);
    }
  }

  /** After scheduling, every notice scheduled has a running timer or is gone from the list. */
  lemma {:induction false} ScheduledOrGone(x: Expiry, ms: seq<Msg>, now: int)
    ensures var r := ScheduleAll(x, ms, now);
            forall k :: 0 <= k < |ms| && IsEphemeralText(ms[k].user, ms[k].text) && IdTruthy(ms[k].id) ==>
              ms[k].id in r.expiring || forall y :: y in r.list ==> y.id != ms[k].id
    decreases |ms|
  {
    if ms != [] {
      var init := ms[..|ms| - 1];
      ScheduledOrGone(x, init, now);
      ScheduleExpireEffect(ScheduleAll(x, init, now), ms[|ms| - 1], now);
      forall k | 0 <= k < |init| ensures ms[k] == init[k] { }
    }
  }

  /** Scheduling removes nothing but messages sharing an id with a scheduled notice. */
  lemma {:induction false} ScheduleKeepsOthers(x: Expiry, ms: seq<Msg>, now: int, y: Msg)
    requires y in x.list && forall k :: 0 <= k < |ms| ==> ms[k].id != y.id
    ensures y in ScheduleAll(x, ms, now).list
    decreases |ms|
  {
    if ms != [] {
      var init := ms[..|ms| - 1];
      forall k | 0 <= k < |init| ensures init[k].id != y.id {
        assert init[k] == ms[k];
      }
      ScheduleKeepsOthers(x, init, now, y);
      ScheduleExpireEffect(ScheduleAll(x, init, now), ms[|ms| - 1], now);
    }
  }

  // ---- the last id and the empty-delta counter ----

  /** `Math.max(...ids.filter(Number.isFinite))` over the numeric ids; `None` when there is none. */
  function MaxNumericId(list: seq<Msg>): Option<int>
    decreases |list|
  {
    if list == [] then None else
      var rest := MaxNumericId(list[..|list| - 1]);
      var last := list[|list| - 1];
      if !last.id.NumId? then rest
      else if rest.Some? && rest.value >= last.id.n then rest
      else Some(last.id.n)
  }

  /** The result is the largest numeric id of the list, and there is one exactly when some id is numeric. */
  lemma {:induction false} MaxNumericIdIsMax(list: seq<Msg>)
    ensures var r := MaxNumericId(list);
            && (r.None? <==> forall m :: m in list ==> !m.id.NumId?)
            && (r.Some? ==> exists m :: m in list && m.id == NumId(r.value))
            && (r.Some? ==> forall m :: m in list && m.id.NumId? ==> m.id.n <= r.value)
    decreases |list|
  {
    if list != [] {
      var init := list[..|list| - 1];
      assert list == init + [list[|list| - 1]];
      MaxNumericIdIsMax(init);
    }
  }

  /** `Math.max(last, v)` when there is a `v`. */
  function Raise(last: int, v: Option<int>): (r: int)
    ensures r >= last && (v.Some? ==> r >= v.value)
    ensures r == last || (v.Some? && r == v.value)
  {
    if v.Some? && v.value > last then v.value else last
  }

  /** The empty-delta counter after a history response, and whether it asks for the whole history. */
  datatype Tally = Tally(count: nat, escalate: bool)

  /** The counter as the answer leaves it before the escalation check: it may reach three. */
  function CountAfter(count: nat, sinceId: int, anyVisible: bool): nat {
    if sinceId == 0 || anyVisible then 0 else if sinceId > 0 then count + 1 else count
  }

  function AfterFetch(count: nat, sinceId: int, anyVisible: bool): (r: Tally)
    ensures r.escalate <==> sinceId > 0 && !anyVisible && count >= 2
    ensures anyVisible || sinceId == 0 || r.escalate ==> r.count == 0
    ensures count <= 2 ==> r.count <= 2
  {
    var c := CountAfter(count, sinceId, anyVisible);
    if sinceId > 0 && c >= 3 then Tally(0, true) else Tally(c, false)
  }

  /** The whole-history fetch an escalation asks for. */
  function FetchIf(b: bool): seq<Request> {
    if b then [FetchReq(0)] else []
  }

  /** The acknowledgement of one pushed message, when it is sent. */
  function AckIf(b: bool, id: MsgId): (r: seq<Request>)
    ensures |r| <= 1
  {
    if b then [AckReq([id])] else []
  }

  /** Three empty delta responses in a row: the third asks for the whole history and resets the counter. */
  lemma ThirdEmptyDeltaEscalates(sinceId: int)
    requires sinceId > 0
    ensures var t1 := AfterFetch(0, sinceId, false);
            var t2 := AfterFetch(t1.count, sinceId, false);
            var t3 := AfterFetch(t2.count, sinceId, false);
            !t1.escalate && !t2.escalate && t3.escalate && t3.count == 0
  {
  }

  /** A pushed id more than one past the last known one reveals a gap. */
  predicate GapBefore(last: int, incoming: int) {
    last > 0 && incoming > last + 1
  }

  /** A pushed message is taken when it names no other room and has not expired. */
  predicate BelongsHere(data: Msg, roomId: string, now: int) {
    (data.roomId.None? || data.roomId.value == "" || data.roomId.value == roomId) && !Expired(data, now)
  }

  // ---- the undelivered drain ----

  /** An undelivered message the drain puts in the list: live, of this room, and meant for this user. */
  predicate Shown(m: Msg, roomId: string, uid: int, now: int) {
    !Expired(m, now) && m.roomId == Some(roomId) && ShouldShow(m, uid)
  }

  function ShownFn(roomId: string, uid: int, now: int): Msg -> bool {
    (m: Msg) => Shown(m, roomId, uid, now)
  }

  predicate HasId(list: seq<Msg>, id: MsgId) {
    exists x :: x in list && x.id == id
  }

  /** The drain loop: each shown message whose id the list lacks is appended. */
  function DrainInto(merged: seq<Msg>, data: seq<Msg>, roomId: string, uid: int, now: int): (r: seq<Msg>)
    ensures merged <= r
    decreases |data|
  {
    if data == [] then merged else
      var r0 := DrainInto(merged, data[..|data| - 1], roomId, uid, now);
      var m := data[|data| - 1];
      if Shown(m, roomId, uid, now) && !HasId(r0, m.id) then r0 + [m] else r0
  }

  /** Every shown message ends up in the list, by id. */
  lemma {:induction false} DrainShowsAll(merged: seq<Msg>, data: seq<Msg>, roomId: string, uid: int, now: int)
    ensures forall k :: 0 <= k < |data| && Shown(data[k], roomId, uid, now) ==>
              HasId(DrainInto(merged, data, roomId, uid, now), data[k].id)
    decreases |data|
  {
    if data != [] {
      var init := data[..|data| - 1];
      DrainShowsAll(merged, init, roomId, uid, now);
      var r0 := DrainInto(merged, init, roomId, uid, now);
      var r := DrainInto(merged, data, roomId, uid, now);
      forall k | 0 <= k < |data| && Shown(data[k], roomId, uid, now) ensures HasId(r, data[k].id) {
        if k < |init| {
          assert data[k] == init[k];
          var x :| x in r0 && x.id == data[k].id;
          assert x in r;
        } else if !HasId(r0, data[k].id) {
          assert r == r0 + [data[k]];
          assert data[k] in r;
        } else {
          var x :| x in r0 && x.id == data[k].id;
          assert x in r;
        }
      }
    }
  }

  /** The drain appends nothing but shown messages of the response. */
  lemma {:induction false} DrainAddsOnlyShown(merged: seq<Msg>, data: seq<Msg>, roomId: string, uid: int, now: int)
    ensures forall x :: x in DrainInto(merged, data, roomId, uid, now) ==>
              x in merged || (x in data && Shown(x, roomId, uid, now))
    decreases |data|
  {
    if data != [] {
      var init := data[..|data| - 1];
      DrainAddsOnlyShown(merged, init, roomId, uid, now);
      forall x | x in init ensures x in data {
        var k :| 0 <= k < |init| && init[k] == x;
        assert data[k] == x;
      }
    }
  }

  /** `Math.max(maxId ?? 0, id)` over the shown numeric ids. */
  function Floor0(v: Option<int>): (r: Option<int>)
    ensures r.Some? <==> v.Some?
    ensures r.Some? ==> r.value >= 0 && r.value >= v.value
  {
    if v.Some? && v.value < 0 then Some(0) else v
  }

  // ---- sending ----

  /** No post in the outbox was issued past the retry limit. */
  ghost predicate PostsBounded(reqs: seq<Request>) {
    forall i :: 0 <= i < |reqs| && reqs[i].PostReq? ==> reqs[i].attempts <= MESSAGE_MAX_RETRIES
  }

  lemma PostsBoundedAppend(a: seq<Request>, b: seq<Request>)
    requires PostsBounded(a) && PostsBounded(b)
    ensures PostsBounded(a + b)
  {
    forall i | 0 <= i < |a + b| && (a + b)[i].PostReq? ensures (a + b)[i].attempts <= MESSAGE_MAX_RETRIES {
      if i >= |a| {
        assert (a + b)[i] == b[i - |a|];
      }
    }
  }
  /** A receive adds no post to the outbox. */
  lemma ReceiveAddsNoPost(gap: bool, ack: bool, id: MsgId)
    ensures PostsBounded(FetchIf(gap) + AckIf(ack, id))
  {
  }

  /** An acknowledgement is not a post. */
  lemma AckAddsNoPost(ids: seq<MsgId>)
    ensures PostsBounded([AckReq(ids)])
  {
  }

  /** Confirming a send keeps the other attempt counts. */
  lemma SettleKeepsBounded(pending: map<string, nat>, c: Option<string>)
    requires AttemptsBounded(pending)
    ensures AttemptsBounded(if c.Some? then pending - {c.value} else pending)
  {
  }


  /** `handleSend`'s own checks: something besides white space, and at most 500 UTF-16 code units. */
  predicate ClientAccepts(text: string) {
    Trim(text) != "" && Utf16Length(text) <= MAX_MESSAGE_LENGTH
  }

  /** A text the client sends passes the server's check, and the stored text is not blank. */
  lemma ClientAcceptedPassesServer(text: string)
    requires ClientAccepts(text)
    ensures ValidateMessageText(Str(text)).Valid?
    ensures ValidateMessageText(Str(text)).sanitized != ""
  {
    assert |Trim(text)| <= |text|;
  }

  /** The optimistic entry shown while the send is pending; its id is its token. */
  function Optimistic(roomId: string, userId: Option<int>, userName: string, text: string, time: string, token: string): (m: Msg)
    ensures m.pending && !m.failed && m.id == TokenId(token) && m.clientId == Some(token)
    ensures m.roomId == Some(roomId) && m.text == text && m.user == userName && m.userId == userId
  {
    Msg(TokenId(token), Some(roomId), userId, userName, text, time, Some(token), None, None, true, false)
  }

  /** The list and timers after a history answer with the live messages `visible`. */
  function HistoryList(prev: seq<Msg>, expiring: set<MsgId>, visible: seq<Msg>, now: int): Expiry {
    ScheduleAll(Expiry(MergeFetched(prev, visible, now), expiring), visible, now)
  }

  /** The merge of a history response, with the upsert loop written out; the result is `MergeSteps`'s. */
  method MergeResponse(prev: seq<Msg>, visible: seq<Msg>, now: int) returns (list: seq<Msg>, sorted: seq<Msg>)
    ensures list == MergeSteps(prev, visible, now).list && sorted == MergeSteps(prev, visible, now).sorted
  {
    var pf := Cleanup(prev, now);
    var bt := ByTokenMap(pf);
    var bi := ByIdMap(pf);
    var e := FromList(pf);
    var i := 0;
    while i < |visible|
      invariant 0 <= i <= |visible|
      invariant e == UpsertAll(FromList(pf), bt, bi, visible[..i])
    {
      var t := Target(bt, bi, visible[i]);
      assert visible[..i + 1][..i] == visible[..i];
      e := Put(e, t.key, t.val);
      i := i + 1;
    }
    assert visible[..|visible|] == visible;
    sorted := Sort(Cleanup(Values(e), now), IdOrder());
    list := if Ids(pf) == Ids(sorted) then pf else sorted;
  }

  /** `ms.forEach(scheduleExpire)`, one message at a time. */
  method ScheduleEach(x: Expiry, ms: seq<Msg>, now: int) returns (r: Expiry)
    ensures r == ScheduleAll(x, ms, now)
  {
    r := x;
    var i := 0;
    while i < |ms|
      invariant 0 <= i <= |ms|
      invariant r == ScheduleAll(x, ms[..i], now)
    {
      assert ms[..i + 1][..i] == ms[..i];
      r := ScheduleExpire(r, ms[i], now);
      i := i + 1;
    }
    assert ms[..|ms|] == ms;
  }

  lemma MaxNumericIdAppend(list: seq<Msg>, m: Msg)
    ensures MaxNumericId(list + [m]) ==
              if !m.id.NumId? then MaxNumericId(list)
              else if MaxNumericId(list).Some? && MaxNumericId(list).value >= m.id.n then MaxNumericId(list)
              else Some(m.id.n)
  {
    assert (list + [m])[..|list|] == list;
  }

  /** One step of the drain's running maximum, floored at zero. */
  lemma FloorMaxStep(list: seq<Msg>, m: Msg)
    ensures var v := Floor0(MaxNumericId(list));
            Floor0(MaxNumericId(list + [m])) ==
              if !m.id.NumId? then v
              else Some(if v.Some? && v.value >= m.id.n then v.value else if m.id.n < 0 then 0 else m.id.n)
  {
    MaxNumericIdAppend(list, m);
  }

  lemma DrainIntoAppend(merged: seq<Msg>, data: seq<Msg>, m: Msg, roomId: string, uid: int, now: int)
    ensures var r0 := DrainInto(merged, data, roomId, uid, now);
            DrainInto(merged, data + [m], roomId, uid, now) ==
              if Shown(m, roomId, uid, now) && !HasId(r0, m.id) then r0 + [m] else r0
  {
    assert (data + [m])[..|data|] == data;
  }

  lemma IdsAppend(list: seq<Msg>, m: Msg)
    ensures Ids(list + [m]) == Ids(list) + [m.id]
  {
  }

  /** One more message of the answer, in terms of the prefix before it. */
  lemma DrainStep(merged0: seq<Msg>, data: seq<Msg>, i: nat, roomId: string, uid: int, now: int)
    requires i < |data|
    ensures var m := data[i];
            var r0 := DrainInto(merged0, data[..i], roomId, uid, now);
            && Ids(data[..i + 1]) == Ids(data[..i]) + [m.id]
            && Filter(data[..i + 1], ShownFn(roomId, uid, now)) ==
                 Filter(data[..i], ShownFn(roomId, uid, now)) + (if Shown(m, roomId, uid, now) then [m] else [])
            && DrainInto(merged0, data[..i + 1], roomId, uid, now) ==
                 if Shown(m, roomId, uid, now) && !HasId(r0, m.id) then r0 + [m] else r0
  {
    var m := data[i];
    assert data[..i + 1] == data[..i] + [m];
    FilterAppend(data[..i], m, ShownFn(roomId, uid, now));
    assert ShownFn(roomId, uid, now)(m) == Shown(m, roomId, uid, now);
    IdsAppend(data[..i], m);
    DrainIntoAppend(merged0, data[..i], m, roomId, uid, now);
  }

  /** The history merge followed by the expiry scheduling of the fetched messages. */
  method MergeHistory(prev: seq<Msg>, expiring: set<MsgId>, visible: seq<Msg>, now: int)
    returns (x: Expiry, sorted: seq<Msg>)
    ensures x == HistoryList(prev, expiring, visible, now)
    ensures sorted == MergeSteps(prev, visible, now).sorted
  {
    var list;
    list, sorted := MergeResponse(prev, visible, now);
    x := ScheduleEach(Expiry(list, expiring), visible, now);
  }

  /** The drain of an undelivered answer followed by the expiry scheduling of the shown messages. */
  method DrainHistory(prev: seq<Msg>, expiring: set<MsgId>, data: seq<Msg>, roomId: string, uid: int, now: int)
    returns (x: Expiry, acks: seq<MsgId>, maxId: Option<int>)
    ensures var shown := Filter(data, ShownFn(roomId, uid, now));
            && x == ScheduleAll(Expiry(DrainInto(Cleanup(prev, now), data, roomId, uid, now), expiring), shown, now)
            && acks == Ids(data)
            && maxId == Floor0(MaxNumericId(shown))
  {
    var merged, shown;
    merged, acks, shown, maxId := Drain(Cleanup(prev, now), data, roomId, uid, now);
    x := ScheduleEach(Expiry(merged, expiring), shown, now);
  }

  /**
   * The loop over an undelivered answer: every id is collected for the
   * acknowledgement, and each shown message whose id `merged` lacks is appended.
   */
  method Drain(merged0: seq<Msg>, data: seq<Msg>, roomId: string, uid: int, now: int)
    returns (merged: seq<Msg>, acks: seq<MsgId>, shown: seq<Msg>, maxId: Option<int>)
    ensures merged == DrainInto(merged0, data, roomId, uid, now)
    ensures acks == Ids(data)
    ensures shown == Filter(data, ShownFn(roomId, uid, now))
    ensures maxId == Floor0(MaxNumericId(shown))
  {
    merged, acks, shown, maxId := merged0, [], [], None;
    var i := 0;
    while i < |data|
      invariant 0 <= i <= |data|
      invariant merged == DrainInto(merged0, data[..i], roomId, uid, now)
      invariant acks == Ids(data[..i])
      invariant shown == Filter(data[..i], ShownFn(roomId, uid, now))
      invariant maxId == Floor0(MaxNumericId(shown))
    {
      var m := data[i];
      DrainStep(merged0, data, i, roomId, uid, now);
      if Shown(m, roomId, uid, now) {
        FloorMaxStep(shown, m);
        if !HasId(merged, m.id) {
          merged := merged + [m];
        }
        if m.id.NumId? {
          maxId := Some(if maxId.Some? && maxId.value >= m.id.n then maxId.value else if m.id.n < 0 then 0 else m.id.n);
        }
        shown := shown + [m];
      }
      acks := acks + [m.id];
      i := i + 1;
    }
    assert data[..|data|] == data;
  }

  /** What a pushed message that belongs to the room does to the list, the counters and the queue. */
  method Receive(messages: seq<Msg>, expiring: set<MsgId>, last: int, pending: map<string, nat>, reqs: seq<Request>,
                 data: Msg, now: int, signedIn: bool)
    returns (x: Expiry, last2: int, pending2: map<string, nat>, reqs2: seq<Request>, gap: bool)
    requires AttemptsBounded(pending) && PostsBounded(reqs)
    ensures gap == (data.id.NumId? && GapBefore(last, data.id.n))
    ensures x == ScheduleExpire(Expiry(ReceiveInto(messages, data, now), expiring), data, now)
    ensures last2 == if data.id.NumId? then Raise(last, Some(data.id.n)) else last
    ensures pending2 == (if data.clientId.Some? then pending - {data.clientId.value} else pending)
    ensures reqs2 == reqs + FetchIf(gap) + AckIf(data.id.NumId? && signedIn, data.id)
    ensures AttemptsBounded(pending2) && PostsBounded(reqs2)
  {
    gap := data.id.NumId? && GapBefore(last, data.id.n);
    x := ScheduleExpire(Expiry(ReceiveInto(messages, data, now), expiring), data, now);
    var extra := FetchIf(gap) + AckIf(data.id.NumId? && signedIn, data.id);
    SettleKeepsBounded(pending, data.clientId);
    ReceiveAddsNoPost(gap, data.id.NumId? && signedIn, data.id);
    PostsBoundedAppend(reqs, extra);
    last2 := if data.id.NumId? then Raise(last, Some(data.id.n)) else last;
    pending2 := if data.clientId.Some? then pending - {data.clientId.value} else pending;
    reqs2 := reqs + extra;
  }

  class Room {
    const roomId: string
    const isPrivate: bool
    /** The signed-in user's id, `None` when it is missing. */
    const userId: Option<int>
    const userName: string

    var messages: seq<Msg>
    /** Client token to failed attempts so far, for each send not yet confirmed. */
    var pending: map<string, nat>
    var expiring: set<MsgId>
    var lastMessageId: int
    var emptyDeltaCount: nat
    var lastSyncAt: int
    var lastMessageAt: int
    var lastFullSyncAt: int
    var requests: seq<Request>

    /** The counter never reaches three between responses, and no post is issued past the retry limit. */
    ghost predicate Valid()
      reads this`emptyDeltaCount, this`pending, this`requests
    {
      && roomId != ""
      && emptyDeltaCount <= 2
      && AttemptsBounded(pending)
      && PostsBounded(requests)
    }

    /** Mounting: the cached list without expired notices, a join, and a history fetch. */
    constructor(roomId: string, isPrivate: bool, userId: Option<int>, userName: string, cached: seq<Msg>, now: int)
      requires roomId != ""
      ensures Valid()
      ensures this.roomId == roomId && this.isPrivate == isPrivate && this.userId == userId && this.userName == userName
      ensures messages == Cleanup(cached, now) && pending == map[] && expiring == {}
      ensures lastMessageId == 0 && emptyDeltaCount == 0 && lastSyncAt == now && lastMessageAt == 0 && lastFullSyncAt == 0
      ensures requests == (if userId.Some? then [JoinReq] else []) + [FetchReq(0)]
    {
      this.roomId := roomId;
      this.isPrivate := isPrivate;
      this.userId := userId;
      this.userName := userName;
      messages := Cleanup(cached, now);
      pending := map[];
      expiring := {};
      lastMessageId := 0;
      emptyDeltaCount := 0;
      lastSyncAt := now;
      lastMessageAt := 0;
      lastFullSyncAt := 0;
      requests := (if userId.Some? then [JoinReq] else []) + [FetchReq(0)];
    }

    /** `fetchMessages`: a private room always asks for the whole history. */
    method FetchMessages(sinceId: int, now: int)
      modifies this`lastSyncAt, this`requests
      ensures lastSyncAt == now
      ensures requests == old(requests) + [FetchReq(if isPrivate then 0 else sinceId)]
    {
      lastSyncAt := now;
      requests := requests + [FetchReq(if isPrivate then 0 else sinceId)];
    }

    /** `fetchUndelivered`: only a private room with a known user drains. */
    method FetchUndelivered()
      modifies this`requests
      ensures requests == old(requests) + (if isPrivate && userId.Some? then [UndeliveredReq] else [])
    {
      if isPrivate && userId.Some? {
        requests := requests + [UndeliveredReq];
      }
    }

    /** The removal timer of a notice firing. */
    method OnExpiryTimer(id: MsgId)
      requires Valid()
      modifies this`messages, this`expiring
      ensures Valid()
      ensures messages == RemoveId(old(messages), id) && expiring == old(expiring) - {id}
    {
      messages := RemoveId(messages, id);
      expiring := expiring - {id};
    }

    /**
     * The answer to a history fetch asked with `sinceId`: the live fetched
     * messages are merged in, the last id only grows, the counter of empty
     * delta answers stays below three and its third step asks for the
     * whole history.
     */
    method OnMessagesResponse(sinceId: int, data: seq<Msg>, now: int)
      requires Valid()
      modifies this`messages, this`expiring, this`lastMessageId, this`emptyDeltaCount,
               this`lastFullSyncAt, this`lastSyncAt, this`requests
      ensures Valid()
      ensures Expiry(messages, expiring) == HistoryList(old(messages), old(expiring), Cleanup(data, now), now)
      ensures lastMessageId == Raise(Raise(old(lastMessageId), MaxNumericId(Cleanup(data, now))),
                                     MaxNumericId(MergeSteps(old(messages), Cleanup(data, now), now).sorted))
      ensures emptyDeltaCount == AfterFetch(old(emptyDeltaCount), sinceId, Cleanup(data, now) != []).count
      ensures requests == old(requests) + FetchIf(AfterFetch(old(emptyDeltaCount), sinceId, Cleanup(data, now) != []).escalate)
      ensures lastSyncAt == if AfterFetch(old(emptyDeltaCount), sinceId, Cleanup(data, now) != []).escalate then now else old(lastSyncAt)
      ensures lastFullSyncAt == if sinceId == 0 then now else old(lastFullSyncAt)
    {
      var visible := Cleanup(data, now);
      CountResponse(sinceId, visible, now);
      ApplyHistory(visible, now);
    }

    /** The bookkeeping of a history answer: the counter, the sync times, the last id and the escalation. */
    method CountResponse(sinceId: int, visible: seq<Msg>, now: int)
      requires Valid()
      modifies this`lastMessageId, this`emptyDeltaCount, this`lastFullSyncAt, this`lastSyncAt, this`requests
      ensures Valid()
      ensures lastMessageId == Raise(old(lastMessageId), MaxNumericId(visible))
      ensures emptyDeltaCount == AfterFetch(old(emptyDeltaCount), sinceId, visible != []).count
      ensures requests == old(requests) + FetchIf(AfterFetch(old(emptyDeltaCount), sinceId, visible != []).escalate)
      ensures lastSyncAt == if AfterFetch(old(emptyDeltaCount), sinceId, visible != []).escalate then now else old(lastSyncAt)
      ensures lastFullSyncAt == if sinceId == 0 then now else old(lastFullSyncAt)
    {
      var t := AfterFetch(emptyDeltaCount, sinceId, visible != []);
      var reqs := requests;
      PostsBoundedAppend(reqs, FetchIf(t.escalate));
      lastMessageId := Raise(lastMessageId, MaxNumericId(visible));
      emptyDeltaCount := t.count;
      lastFullSyncAt := if sinceId == 0 then now else lastFullSyncAt;
      lastSyncAt := if t.escalate then now else lastSyncAt;
      requests := reqs + FetchIf(t.escalate);
    }

    /** The merge of the live fetched messages, their expiry timers, and the last id raised to the largest merged one. */
    method ApplyHistory(visible: seq<Msg>, now: int)
      modifies this`messages, this`expiring, this`lastMessageId
      ensures Expiry(messages, expiring) == HistoryList(old(messages), old(expiring), visible, now)
      ensures lastMessageId == Raise(old(lastMessageId), MaxNumericId(MergeSteps(old(messages), visible, now).sorted))
    {
      var x, sorted := MergeHistory(messages, expiring, visible, now);
      messages, expiring := x.list, x.expiring;
      lastMessageId := Raise(lastMessageId, MaxNumericId(sorted));
    }

    /**
     * The answer to an undelivered drain: every id of the answer is
     * acknowledged, whether the message is shown or skipped; the shown
     * ones whose id the list lacks are appended.
     */
    method OnUndelivered(data: seq<Msg>, now: int)
      requires Valid()
      modifies this`messages, this`expiring, this`lastMessageId, this`lastMessageAt, this`requests
      ensures Valid()
      ensures data == [] || userId.None? ==> unchanged(this)
      ensures data != [] && userId.Some? ==>
                var uid := userId.value;
                var shown := Filter(data, ShownFn(roomId, uid, now));
                && Expiry(messages, expiring) ==
                     ScheduleAll(Expiry(DrainInto(Cleanup(old(messages), now), data, roomId, uid, now), old(expiring)), shown, now)
                && lastMessageId == Raise(old(lastMessageId), Floor0(MaxNumericId(shown)))
                && lastMessageAt == now
                && requests == old(requests) + [AckReq(Ids(data))]
    {
      if data == [] || userId.None? {
        return;
      }
      var x, acks, maxId := DrainHistory(messages, expiring, data, roomId, userId.value, now);
      var reqs := requests;
      AckAddsNoPost(acks);
      PostsBoundedAppend(reqs, [AckReq(acks)]);
      messages, expiring := x.list, x.expiring;
      lastMessageId := Raise(lastMessageId, maxId);
      lastMessageAt := now;
      requests := reqs + [AckReq(acks)];
    }

    /**
     * A pushed `receive_message`: taken when it belongs here; a gap after
     * the last known id asks for the whole history; the send it confirms
     * stops being pending; a numeric id is acknowledged.
     */
    method OnReceive(data: Msg, now: int)
      requires Valid()
      modifies this`messages, this`expiring, this`lastMessageAt, this`lastMessageId, this`lastSyncAt,
               this`pending, this`requests
      ensures Valid()
      ensures !BelongsHere(data, roomId, now) ==> unchanged(this)
      ensures BelongsHere(data, roomId, now) ==>
                var gap := data.id.NumId? && GapBefore(old(lastMessageId), data.id.n);
                && Expiry(messages, expiring) == ScheduleExpire(Expiry(ReceiveInto(old(messages), data, now), old(expiring)), data, now)
                && lastMessageAt == now
                && lastMessageId == (if data.id.NumId? then Raise(old(lastMessageId), Some(data.id.n)) else old(lastMessageId))
                && pending == (if data.clientId.Some? then old(pending) - {data.clientId.value} else old(pending))
                && requests == old(requests) + FetchIf(gap) + AckIf(data.id.NumId? && userId.Some?, data.id)
                && lastSyncAt == (if gap then now else old(lastSyncAt))
    {
      if !BelongsHere(data, roomId, now) {
        return;
      }
      var x, last, p, reqs, gap := Receive(messages, expiring, lastMessageId, pending, requests, data, now, userId.Some?);
      messages, expiring := x.list, x.expiring;
      lastMessageAt := now;
      lastSyncAt := if gap then now else lastSyncAt;
      lastMessageId, pending, requests := last, p, reqs;
    }

    /** The socket (re)connecting: join, register, a delta fetch and a drain. */
    method OnConnect(now: int)
      requires Valid()
      modifies this`lastSyncAt, this`requests
      ensures Valid()
      ensures lastSyncAt == now
      ensures requests == old(requests) + (if userId.Some? then [JoinReq] else []) + [RegisterReq]
                          + [FetchReq(if isPrivate then 0 else old(lastMessageId))]
                          + (if isPrivate && userId.Some? then [UndeliveredReq] else [])
    {
      requests := requests + (if userId.Some? then [JoinReq] else []) + [RegisterReq];
      FetchMessages(lastMessageId, now);
      FetchUndelivered();
    }

    /** A private room's page becoming visible: the whole history and a drain. */
    method OnVisible(now: int)
      requires Valid()
      modifies this`lastSyncAt, this`requests
      ensures Valid()
      ensures !isPrivate ==> requests == old(requests) && lastSyncAt == old(lastSyncAt)
      ensures isPrivate ==> lastSyncAt == now
      ensures isPrivate ==>
                requests == old(requests) + [FetchReq(0)] + (if userId.Some? then [UndeliveredReq] else [])
    {
      if !isPrivate {
        return;
      }
      FetchMessages(0, now);
      FetchUndelivered();
    }

    /** One poll tick of a private room: a fetch when `PollPlan` says so, and always a drain. */
    method PollTick(now: int, pageVisible: bool, connected: bool)
      requires Valid()
      modifies this`lastSyncAt, this`requests
      ensures Valid()
      ensures !isPrivate || !pageVisible ==> requests == old(requests) && lastSyncAt == old(lastSyncAt)
      ensures isPrivate && pageVisible ==>
                var plan := PollPlan(now, old(lastFullSyncAt), old(lastSyncAt), old(lastMessageAt), |old(pending)| > 0, connected);
                && requests == old(requests) + (if plan == NoFetch then [] else [FetchReq(0)])
                                 + (if userId.Some? then [UndeliveredReq] else [])
                && lastSyncAt == (if plan == NoFetch then old(lastSyncAt) else now)
    {
      if !isPrivate || !pageVisible {
        return;
      }
      var plan := PollPlan(now, lastFullSyncAt, lastSyncAt, lastMessageAt, |pending| > 0, connected);
      if plan == FullFetch {
        FetchMessages(0, now);
      } else if plan == DeltaFetch {
        FetchMessages(lastMessageId, now);
      }
      FetchUndelivered();
    }

    /**
     * `handleSend` with a fresh token: a text the client accepts shows up
     * at once as pending and goes out over the socket and over HTTP.
     */
    method Send(text: string, token: string, time: string) returns (sent: bool)
      requires Valid()
      requires token !in pending
      modifies this`messages, this`pending, this`requests
      ensures Valid()
      ensures sent <==> ClientAccepts(text)
      ensures sent ==> messages == old(messages) + [Optimistic(roomId, userId, userName, text, time, token)]
                       && pending == old(pending)[token := 0]
                       && requests == old(requests) + [SocketSend(token), PostReq(token, 0)]
      ensures !sent ==> messages == old(messages) && pending == old(pending) && requests == old(requests)
    {
      if Trim(text) == "" || Utf16Length(text) > MAX_MESSAGE_LENGTH {
        return false;
      }
      messages := messages + [Optimistic(roomId, userId, userName, text, time, token)];
      pending := pending[token := 0];
      requests := requests + [SocketSend(token), PostReq(token, 0)];
      sent := true;
    }

    /** The socket acknowledgement of a send. */
    method OnSocketAck(c: string, ok: bool, ackClientId: string, ackId: int)
      requires Valid()
      modifies this`messages, this`pending
      ensures Valid()
      ensures Sends(messages, pending) == Apply(Sends(old(messages), old(pending)), SocketAck(c, ok, ackClientId, ackId))
    {
      var s := Apply(Sends(messages, pending), SocketAck(c, ok, ackClientId, ackId));
      messages, pending := s.list, s.pending;
    }

    /** A post answered with the saved row. */
    method OnPostOk(c: string, saved: Msg)
      requires Valid()
      modifies this`messages, this`pending
      ensures Valid()
      ensures Sends(messages, pending) == Apply(Sends(old(messages), old(pending)), PostOk(c, saved))
    {
      var s := Apply(Sends(messages, pending), PostOk(c, saved));
      messages, pending := s.list, s.pending;
    }

    /** A post that failed: ignored once the send is confirmed; else a retry, or failure and a fetch on the third. */
    method OnPostFailed(c: string, attempts: nat, now: int)
      requires Valid()
      requires PostReq(c, attempts) in requests
      modifies this`messages, this`pending, this`requests, this`lastSyncAt
      ensures Valid()
      ensures var f := PostFailed(Sends(old(messages), old(pending)), c, attempts);
              && Sends(messages, pending) == f.sends
              && requests == old(requests) + (if f.gaveUp then [FetchReq(if isPrivate then 0 else old(lastMessageId))] else [])
                                           + (if f.retry then [RetryTimer(c)] else [])
              && lastSyncAt == (if f.gaveUp then now else old(lastSyncAt))
    {
      var f := PostFailed(Sends(messages, pending), c, attempts);
      messages, pending := f.sends.list, f.sends.pending;
      if f.gaveUp {
        FetchMessages(lastMessageId, now);
      }
      if f.retry {
        requests := requests + [RetryTimer(c)];
      }
    }

    /** A retry timer firing: the post goes out again while the send is pending. */
    method OnRetryTimer(c: string)
      requires Valid()
      modifies this`requests
      ensures Valid()
      ensures requests == old(requests) + match RetryAttempts(Sends(messages, pending), c)
                                           case Some(a) => [PostReq(c, a)]
                                           case None => []
    {
      var a := RetryAttempts(Sends(messages, pending), c);
      if a.Some? {
        requests := requests + [PostReq(c, a.value)];
      }
    }
  }
}
