/**
 * The chat room client's message list: the messages it shows, which of
 * them it hides, when a chat-request notice disappears, how a pushed
 * `receive_message` is merged in, and what a poll tick fetches.
 */
module Reconcile {
  import opened Wrappers
  import opened Js
  import opened Seqs
  import opened Ephemeral

  /**
   * A message id on the client: the server's numeric id, or the client
   * token an optimistic message carries until the server's id replaces it.
   * Tokens are `<user>-<ms>-<random>` and never read as numbers.
   */
  datatype MsgId = NumId(n: int) | TokenId(t: string)

  /**
   * A message in the list. `roomId` is `None` when the object has no
   * `roomId` key (history rows have none); `clientId` is `None` when it is
   * null or empty; `timestamp` is in milliseconds, `None` when missing or
   * unparseable.
   */
  datatype Msg = Msg(
    id: MsgId,
    roomId: Option<string>,
    userId: Option<int>,
    user: string,
    text: string,
    time: string,
    clientId: Option<string>,
    targetUserId: Option<int>,
    timestamp: Option<int>,
    pending: bool,
    failed: bool)

  /** A System message addressed to somebody is shown to that user only. */
  predicate ShouldShow(m: Msg, currentUser: int) {
    m.user != "System" || m.targetUserId.None? || m.targetUserId.value == currentUser
  }

  /** The client applies the server's two-minute rule to notices. */
  predicate Expired(m: Msg, now: int) {
    IsExpired(m.user, m.text, m.timestamp, now)
  }

  function Live(now: int): Msg -> bool {
    (m: Msg) => !Expired(m, now)
  }

  /** `cleanupExpiredMessages` */
  function Cleanup(list: seq<Msg>, now: int): (r: seq<Msg>)
    ensures forall m :: m in r <==> m in list && !Expired(m, now)
  {
    Filter(list, Live(now))
  }

  lemma CleanupIdempotent(list: seq<Msg>, now: int)
    ensures Cleanup(Cleanup(list, now), now) == Cleanup(list, now)
  {
    FilterAll(Cleanup(list, now), Live(now));
  }

  /** No two messages of the list share an id. */
  ghost predicate DistinctIds(list: seq<Msg>) {
    forall i, j :: 0 <= i < j < |list| ==> list[i].id != list[j].id
  }

  /** No two messages of the list share a client token. */
  ghost predicate DistinctTokens(list: seq<Msg>) {
    forall i, j :: 0 <= i < j < |list| && list[i].clientId.Some? ==> list[i].clientId != list[j].clientId
  }

  /** A message whose id and token no later message shares keeps a distinct list distinct. */
  lemma ConsKeepsDistinct(x: Msg, rest: seq<Msg>)
    requires DistinctIds(rest) && DistinctTokens(rest)
    requires forall y :: y in rest ==> y.id != x.id && (x.clientId.Some? ==> y.clientId != x.clientId)
    ensures DistinctIds([x] + rest) && DistinctTokens([x] + rest)
  {
    var r := [x] + rest;
    forall i, j | 0 <= i < j < |r| ensures r[i].id != r[j].id {
      if i == 0 {
        assert r[j] in rest;
      } else {
        assert r[i] == rest[i - 1] && r[j] == rest[j - 1];
      }
    }
    forall i, j | 0 <= i < j < |r| && r[i].clientId.Some? ensures r[i].clientId != r[j].clientId {
      if i == 0 {
        assert r[j] in rest;
      } else {
        assert r[i] == rest[i - 1] && r[j] == rest[j - 1];
      }
    }
  }

  /** The head of a distinct list shares its id and token with no later message. */
  lemma HeadDistinct(list: seq<Msg>)
    requires list != [] && DistinctIds(list) && DistinctTokens(list)
    ensures DistinctIds(list[1..]) && DistinctTokens(list[1..])
    ensures forall y :: y in list[1..] ==> y.id != list[0].id && (list[0].clientId.Some? ==> y.clientId != list[0].clientId)
  {
    forall y | y in list[1..] ensures y.id != list[0].id && (list[0].clientId.Some? ==> y.clientId != list[0].clientId) {
      var j :| 0 <= j < |list[1..]| && list[1..][j] == y;
      assert list[j + 1] == y;
    }
  }

  lemma {:induction false} FilterDistinct(list: seq<Msg>, p: Msg -> bool)
    requires DistinctIds(list) && DistinctTokens(list)
    ensures DistinctIds(Filter(list, p)) && DistinctTokens(Filter(list, p))
  {
    if list != [] {
      HeadDistinct(list);
      FilterDistinct(list[1..], p);
      var rest := Filter(list[1..], p);
      if p(list[0]) {
        assert Filter(list, p) == [list[0]] + rest;
        ConsKeepsDistinct(list[0], rest);
      } else {
        assert Filter(list, p) == rest;
      }
    }
  }

  // ---- live receive_message ----

  /** Every entry carrying client token `c` becomes `v`; the others stay. */
  function ReplaceToken(list: seq<Msg>, c: string, v: Msg): (r: seq<Msg>)
    ensures |r| == |list|
    ensures forall i :: 0 <= i < |list| ==> r[i] == if list[i].clientId == Some(c) then v else list[i]
  {
    seq(|list|, i requires 0 <= i < |list| => if list[i].clientId == Some(c) then v else list[i])
  }

  /** The pushed message with the flags of a confirmed send. */
  function Confirmed(data: Msg): Msg {
    data.(pending := false, failed := false)
  }

  /**
   * The list after a pushed message that belongs to the room and has not
   * expired: unchanged (but cleaned) when its id is already there; the
   * optimistic entry with its client token replaced in place; appended
   * otherwise.
   */
  function ReceiveInto(prev: seq<Msg>, data: Msg, now: int): (r: seq<Msg>)
    ensures (exists m :: m in Cleanup(prev, now) && m.id == data.id) ==> r == Cleanup(prev, now)
  {
    var pf := Cleanup(prev, now);
    if exists m :: m in pf && m.id == data.id then pf
    else if data.clientId.Some? && exists m :: m in pf && m.clientId == data.clientId then
      ReplaceToken(pf, data.clientId.value, Confirmed(data))
    else pf + [data]
  }

  /**
   * After a receive the message is in the list: the entry already holding
   * its id, its confirmed copy in place of the optimistic entry, or itself
   * at the end; and every other live entry is kept.
   */
  lemma ReceiveShowsMessage(prev: seq<Msg>, data: Msg, now: int)
    ensures var r := ReceiveInto(prev, data, now);
            exists m :: m in r && m.id == data.id
    ensures var r := ReceiveInto(prev, data, now);
            var pf := Cleanup(prev, now);
            forall p :: p in pf && (data.clientId.None? || p.clientId != data.clientId) ==> p in r
    ensures var r := ReceiveInto(prev, data, now);
            var pf := Cleanup(prev, now);
            !(exists m :: m in pf && m.id == data.id) ==> (data in r || Confirmed(data) in r)
  {
    var pf := Cleanup(prev, now);
    var r := ReceiveInto(prev, data, now);
    if !(exists m :: m in pf && m.id == data.id) {
      if data.clientId.Some? && exists m :: m in pf && m.clientId == data.clientId {
        var m :| m in pf && m.clientId == data.clientId;
        var i :| 0 <= i < |pf| && pf[i] == m;
        assert r[i] == Confirmed(data);
        forall p | p in pf && p.clientId != data.clientId ensures p in r {
          var j :| 0 <= j < |pf| && pf[j] == p;
          assert r[j] == p;
        }
      } else {
        assert r[|pf|] == data;
        forall p | p in pf ensures p in r {
          var j :| 0 <= j < |pf| && pf[j] == p;
          assert r[j] == p;
        }
      }
    }
  }

  /** A message pushed twice (the room broadcast and the user broadcast) is merged once. */
  lemma ReceiveIdempotent(prev: seq<Msg>, data: Msg, now: int)
    requires !Expired(data, now)
    ensures ReceiveInto(ReceiveInto(prev, data, now), data, now) == ReceiveInto(prev, data, now)
  {
    var pf := Cleanup(prev, now);
    var r := ReceiveInto(prev, data, now);
    ReceiveShowsMessage(prev, data, now);
    assert forall m :: m in r ==> !Expired(m, now) by {
      forall m | m in r ensures !Expired(m, now) {
        if m !in pf {
          assert m == data || m == Confirmed(data);
        }
      }
    }
    FilterAll(r, Live(now));
  }

  /** A receive into a list of distinct ids and tokens keeps them distinct. */
  lemma ReceiveKeepsDistinct(prev: seq<Msg>, data: Msg, now: int)
    requires DistinctIds(prev) && DistinctTokens(prev)
    ensures var r := ReceiveInto(prev, data, now);
            DistinctIds(r) && DistinctTokens(r)
  {
    FilterDistinct(prev, Live(now));
    var pf := Cleanup(prev, now);
    var r := ReceiveInto(prev, data, now);
    if !(exists m :: m in pf && m.id == data.id) {
      if data.clientId.Some? && exists m :: m in pf && m.clientId == data.clientId {
        forall i, j | 0 <= i < j < |r| ensures r[i].id != r[j].id {
          if pf[i].clientId == data.clientId && pf[j].clientId == data.clientId {
            assert false;
          } else if pf[i].clientId == data.clientId {
            assert pf[j] in pf;
          } else if pf[j].clientId == data.clientId {
            assert pf[i] in pf;
          }
        }
        forall i, j | 0 <= i < j < |r| && r[i].clientId.Some? ensures r[i].clientId != r[j].clientId {
          if pf[i].clientId == data.clientId && pf[j].clientId == data.clientId {
            assert false;
          }
        }
      } else {
        forall i, j | 0 <= i < j < |r| ensures r[i].id != r[j].id {
          if j == |pf| {
            assert pf[i] in pf;
          }
        }
        forall i, j | 0 <= i < j < |r| && r[i].clientId.Some? ensures r[i].clientId != r[j].clientId {
          if j == |pf| {
            assert pf[i] in pf;
          }
        }
      }
    }
  }

  // ---- expiry timers ----

  /** `getMessageTimeMs`: a zero time stamp reads as missing. */
  function TimeMs(m: Msg): Option<int> {
    if m.timestamp.None? || m.timestamp.value == 0 then None else m.timestamp
  }

  /** `scheduleExpire`: how long until the notice is removed; at or below zero it goes at once. */
  function ExpireDelay(m: Msg, now: int): int {
    var t := if TimeMs(m).Some? then TimeMs(m).value else now;
    TTL_MS - (if now - t > 0 then now - t else 0)
  }

  /** The timer of a notice stamped `t` (not in the future) fires at `t` + two minutes. */
  lemma ExpiryTimerFiresAtTtl(m: Msg, now: int)
    requires TimeMs(m).Some? && TimeMs(m).value <= now
    ensures now + ExpireDelay(m, now) == TimeMs(m).value + TTL_MS
  {
  }

  /**
   * At exactly two minutes the cleanup keeps a notice that `scheduleExpire`
   * removes at once: the two rules disagree on that one millisecond.
   */
  lemma ExpiryBoundaryDisagrees(m: Msg)
    requires IsEphemeralText(m.user, m.text) && TimeMs(m).Some?
    ensures var now := TimeMs(m).value + TTL_MS;
            !Expired(m, now) && ExpireDelay(m, now) <= 0
  {
  }

  // ---- poll tick ----

  const POLL_INTERVAL_MS: int := 3000
  const FULL_SYNC_INTERVAL_MS: int := 30000

  datatype Plan = FullFetch | DeltaFetch | NoFetch

  /** What one visible poll tick of a private room fetches, besides the undelivered drain. */
  function PollPlan(now: int, lastFullSyncAt: int, lastSyncAt: int, lastMessageAt: int, hasPending: bool, connected: bool): (p: Plan)
    ensures p == FullFetch <==> now - lastFullSyncAt > FULL_SYNC_INTERVAL_MS
    ensures p == NoFetch <==>
              && now - lastFullSyncAt <= FULL_SYNC_INTERVAL_MS
              && !hasPending && connected
              && now - lastSyncAt <= POLL_INTERVAL_MS && now - lastMessageAt <= POLL_INTERVAL_MS
  {
    if now - lastFullSyncAt > FULL_SYNC_INTERVAL_MS then FullFetch
    else if hasPending || !connected || now - lastSyncAt > POLL_INTERVAL_MS || now - lastMessageAt > POLL_INTERVAL_MS then DeltaFetch
    else NoFetch
  }

  /**
   * A tick fetches whenever a send is pending or the socket is down; a
   * full fetch always wins over a delta fetch.
   */
  lemma PollFetchesWhenUnsure(now: int, lastFullSyncAt: int, lastSyncAt: int, lastMessageAt: int, hasPending: bool, connected: bool)
    requires hasPending || !connected
    ensures PollPlan(now, lastFullSyncAt, lastSyncAt, lastMessageAt, hasPending, connected) != NoFetch
    ensures now - lastFullSyncAt <= FULL_SYNC_INTERVAL_MS ==>
              PollPlan(now, lastFullSyncAt, lastSyncAt, lastMessageAt, hasPending, connected) == DeltaFetch
  {
  }
}
