/**
 * The notification state of the client: the recent heart notices, the
 * chat requests waiting for an answer and the unread badge count. Each
 * fetch answer, socket push and user action is a method of one object;
 * the lists it computes are specified by the functions beside it.
 */
module Notifications {
  import opened Wrappers
  import opened Js
  import opened Seqs

  /** The 24-hour window, `24 * 60 * 60 * 1000` milliseconds. */
  const DAY_MS: int := 86_400_000

  /** A heart notice; `createdAt` is `None` when it is missing or is not a date. */
  datatype Heart = Heart(senderId: int, isRead: bool, createdAt: Option<int>)

  /** A chat request as the panel lists it. */
  datatype ChatReq = ChatReq(id: int, requesterId: int, requesterUsername: string, createdAt: Option<int>)

  /** A socket push handed to `addNotification`, told apart by its `type`. */
  datatype Push =
    | HeartPush(heart: Heart)
    | RequestPush(requestId: int, requesterId: int, requesterUsername: string, createdAt: Option<int>)
    | AcceptedPush
    | RejectedPush
    | OtherPush

  /** How the two DELETE requests of a clear ended: both answered, or one of them threw. */
  datatype ClearOutcome = Answered(heartsOk: bool, requestsOk: bool) | Threw

  /**
   * `new Date(t).getTime() > Date.now() - 24h`: a missing or unparseable
   * time is `NaN`, which compares false.
   */
  predicate Recent(t: Option<int>, now: int) {
    t.Some? && t.value > now - DAY_MS
  }

  /** The heart fetch's filter: the notices of the last 24 hours, in the order received. */
  function RecentHearts(data: seq<Heart>, now: int): (r: seq<Heart>)
    ensures |r| <= |data|
    ensures forall h :: h in r <==> h in data && Recent(h.createdAt, now)
  {
    Filter(data, (h: Heart) => Recent(h.createdAt, now))
  }

  /** The request fetch's filter: a `createdAt` that is present, parses and lies within 24 hours. */
  function RecentRequests(data: seq<ChatReq>, now: int): (r: seq<ChatReq>)
    ensures |r| <= |data|
    ensures forall x :: x in r <==> x in data && Recent(x.createdAt, now)
  {
    Filter(data, (x: ChatReq) => Recent(x.createdAt, now))
  }

  /** `hearts.filter(n => !n.isRead).length` */
  function UnreadHearts(hearts: seq<Heart>): (n: nat)
    ensures n <= |hearts|
  {
    |Filter(hearts, (h: Heart) => !h.isRead)|
  }

  /** `recalculateUnreadCount`: the unread hearts and every listed chat request. */
  function UnreadTotal(hearts: seq<Heart>, requests: seq<ChatReq>): nat {
    UnreadHearts(hearts) + |requests|
  }

  /** `prev.map(n => ({ ...n, isRead: true }))` */
  function MarkAllRead(hearts: seq<Heart>): (r: seq<Heart>)
    ensures |r| == |hearts|
    ensures forall i :: 0 <= i < |hearts| ==> r[i].isRead && r[i] == hearts[i].(isRead := true)
  {
    seq(|hearts|, i requires 0 <= i < |hearts| => hearts[i].(isRead := true))
  }

  /** After marking every heart read none is unread. */
  lemma {:induction false} NoneUnreadAfterMark(hearts: seq<Heart>)
    ensures UnreadHearts(MarkAllRead(hearts)) == 0
  {
    var r := MarkAllRead(hearts);
    FilterNone(r, (h: Heart) => !h.isRead);
  }

  /** A pushed heart adds one to the unread hearts exactly when it is not read. */
  lemma PrependHeart(h: Heart, hearts: seq<Heart>)
    ensures UnreadHearts([h] + hearts) == UnreadHearts(hearts) + (if h.isRead then 0 else 1)
  {
    assert ([h] + hearts)[1..] == hearts;
  }

  /** Filtering by a test and by its negation splits a list. */
  lemma {:induction false} FilterSplit<T(!new)>(s: seq<T>, p: T -> bool, q: T -> bool)
    requires forall x :: q(x) == !p(x)
    ensures |Filter(s, p)| + |Filter(s, q)| == |s|
  {
    if s != [] {
      FilterSplit(s[1..], p, q);
    }
  }

  // ---- the request merge of a fetch ----

  /** `list.some(r => r.id === id)` */
  predicate HasReqId(list: seq<ChatReq>, id: int) {
    exists x :: x in list && x.id == id
  }

  /** No two entries share an id. */
  ghost predicate DistinctReqIds(list: seq<ChatReq>) {
    forall i, j :: 0 <= i < j < |list| ==> list[i].id != list[j].id
  }

  /**
   * The fetched requests followed by each previous entry whose id the list
   * does not hold yet, in the order the entries are visited.
   */
  function MergeInto(merged: seq<ChatReq>, prev: seq<ChatReq>): seq<ChatReq>
    decreases |prev|
  {
    if prev == [] then merged
    else
      var m := MergeInto(merged, prev[..|prev| - 1]);
      var x := prev[|prev| - 1];
      if HasReqId(m, x.id) then m else m + [x]
  }

  lemma MergeStep(merged: seq<ChatReq>, prev: seq<ChatReq>, i: nat)
    requires i < |prev|
    ensures var m := MergeInto(merged, prev[..i]);
            MergeInto(merged, prev[..i + 1]) == if HasReqId(m, prev[i].id) then m else m + [prev[i]]
  {
    assert prev[..i + 1][..i] == prev[..i];
  }

  /**
   * The `prev.forEach` loop of a request fetch: each previous request is
   * pushed when no entry of the growing list has its id.
   */
  method MergeRequests(recent: seq<ChatReq>, prev: seq<ChatReq>) returns (merged: seq<ChatReq>)
    ensures merged == MergeInto(recent, prev)
  {
    merged := recent;
    var i := 0;
    while i < |prev|
      invariant 0 <= i <= |prev|
      invariant merged == MergeInto(recent, prev[..i])
    {
      MergeStep(recent, prev, i);
      if !HasReqId(merged, prev[i].id) {
        merged := merged + [prev[i]];
      }
      i := i + 1;
    }
    assert prev[..|prev|] == prev;
  }

  /** The fetched requests come first, unchanged. */
  lemma {:induction false} MergeKeepsFetched(recent: seq<ChatReq>, prev: seq<ChatReq>)
    ensures |MergeInto(recent, prev)| >= |recent|
    ensures MergeInto(recent, prev)[..|recent|] == recent
  {
    if prev != [] {
      var m := MergeInto(recent, prev[..|prev| - 1]);
      MergeKeepsFetched(recent, prev[..|prev| - 1]);
      assert (m + [prev[|prev| - 1]])[..|recent|] == m[..|recent|];
    }
  }

  /** The merged list holds exactly the ids of the fetched and of the previous requests. */
  lemma {:induction false} MergeIds(recent: seq<ChatReq>, prev: seq<ChatReq>, id: int)
    ensures HasReqId(MergeInto(recent, prev), id) <==> HasReqId(recent, id) || HasReqId(prev, id)
  {
    if prev != [] {
      var init := prev[..|prev| - 1];
      var x := prev[|prev| - 1];
      var m := MergeInto(recent, init);
      MergeIds(recent, init, id);
      MergeIds(recent, init, x.id);
      assert prev == init + [x];
      if HasReqId(prev, id) && !HasReqId(init, id) {
        var y :| y in prev && y.id == id;
        assert y == x;
      }
      if HasReqId(m + [x], id) && !HasReqId(m, id) {
        var y :| y in m + [x] && y.id == id;
        assert y == x;
      }
    }
  }

  /** Every entry of the merge is fetched, or a previous one whose id was not fetched. */
  lemma {:induction false} MergeMembers(recent: seq<ChatReq>, prev: seq<ChatReq>)
    ensures forall x :: x in MergeInto(recent, prev) ==> x in recent || (x in prev && !HasReqId(recent, x.id))
  {
    if prev != [] {
      var init := prev[..|prev| - 1];
      var x := prev[|prev| - 1];
      var m := MergeInto(recent, init);
      MergeMembers(recent, init);
      assert forall y :: y in init ==> y in prev;
      if !HasReqId(m, x.id) {
        MergeIds(recent, init, x.id);
        assert x in prev;
      }
    }
  }

  /** A fetch whose requests have distinct ids gives a merge with distinct ids, whatever the previous list. */
  lemma {:induction false} MergeDistinct(recent: seq<ChatReq>, prev: seq<ChatReq>)
    requires DistinctReqIds(recent)
    ensures DistinctReqIds(MergeInto(recent, prev))
  {
    if prev != [] {
      var init := prev[..|prev| - 1];
      var x := prev[|prev| - 1];
      var m := MergeInto(recent, init);
      MergeDistinct(recent, init);
      if !HasReqId(m, x.id) {
        var r := m + [x];
        forall i, j | 0 <= i < j < |r| ensures r[i].id != r[j].id {
          if j == |m| {
            assert r[i] == m[i] && m[i] in m;
          } else {
            assert r[i] == m[i] && r[j] == m[j];
          }
        }
      }
    }
  }

  // ---- the newest-first order ----

  /** A request's time; only the comparator's `NaN` case reads a missing one. */
  function Time(x: ChatReq): int {
    if x.createdAt.Some? then x.createdAt.value else 0
  }

  /** `(a, b) => new Date(b.createdAt) - new Date(a.createdAt)`; a `NaN` difference counts as equal. */
  function NewestFirst(): (ChatReq, ChatReq) -> int {
    (a: ChatReq, b: ChatReq) => if a.createdAt.Some? && b.createdAt.Some? then Time(b) - Time(a) else 0
  }

  function Age(x: ChatReq): int {
    -Time(x)
  }

  function AgeFn(): ChatReq -> int {
    (x: ChatReq) => Age(x)
  }

  /** Newest first: times never increase along the list. */
  ghost predicate Newest(list: seq<ChatReq>) {
    forall i, j :: 0 <= i < j < |list| ==> Time(list[i]) >= Time(list[j])
  }

  /** Every request carries a time. */
  ghost predicate Dated(list: seq<ChatReq>) {
    forall x :: x in list ==> x.createdAt.Some?
  }

  /** When every request carries a time, the sort puts the newest first and keeps every entry. */
  lemma SortNewest(list: seq<ChatReq>)
    requires Dated(list)
    ensures Newest(Sort(list, NewestFirst()))
    ensures multiset(Sort(list, NewestFirst())) == multiset(list)
  {
    assert RanksBy(list, NewestFirst(), AgeFn());
    SortAscending(list, NewestFirst(), AgeFn());
    var s := Sort(list, NewestFirst());
    forall i, j | 0 <= i < j < |s| ensures Time(s[i]) >= Time(s[j]) {
      assert AgeFn()(s[i]) <= AgeFn()(s[j]);
    }
  }

  /** The request list a successful fetch produces. */
  function Fetched(data: seq<ChatReq>, prev: seq<ChatReq>, now: int): seq<ChatReq> {
    Sort(MergeInto(RecentRequests(data, now), prev), NewestFirst())
  }

  /**
   * What a request fetch promises: every recent fetched request is listed;
   * every listed request is a recent fetched one or a previous one whose id
   * the fetch did not bring; the ids are those of both lists; the newest
   * comes first when the previous list is dated.
   */
  lemma FetchedRequests(data: seq<ChatReq>, prev: seq<ChatReq>, now: int)
    ensures var r := Fetched(data, prev, now);
            && (forall x :: x in data && Recent(x.createdAt, now) ==> x in r)
            && (forall x :: x in r ==>
                  (x in data && Recent(x.createdAt, now)) || (x in prev && !HasReqId(RecentRequests(data, now), x.id)))
            && (forall id :: HasReqId(r, id) <==> HasReqId(RecentRequests(data, now), id) || HasReqId(prev, id))
    ensures Dated(prev) ==> Dated(Fetched(data, prev, now)) && Newest(Fetched(data, prev, now))
  {
    var recent := RecentRequests(data, now);
    var m := MergeInto(recent, prev);
    var r := Fetched(data, prev, now);
    MergeKeepsFetched(recent, prev);
    MergeMembers(recent, prev);
    assert forall x :: x in r <==> x in m by {
      forall x ensures x in r <==> x in m {
        assert x in r <==> x in multiset(r);
      }
    }
    forall x | x in recent ensures x in m {
      var i :| 0 <= i < |recent| && recent[i] == x;
      assert m[..|recent|][i] == x;
    }
    forall id ensures HasReqId(r, id) <==> HasReqId(recent, id) || HasReqId(prev, id) {
      MergeIds(recent, prev, id);
    }
    if Dated(prev) {
      assert Dated(m);
      SortNewest(m);
    }
  }

  /** Merged requests from a fetch with distinct ids keep distinct ids. */
  lemma FetchedDistinct(data: seq<ChatReq>, prev: seq<ChatReq>, now: int)
    requires DistinctReqIds(RecentRequests(data, now))
    ensures DistinctReqIds(MergeInto(RecentRequests(data, now), prev))
  {
    MergeDistinct(RecentRequests(data, now), prev);
  }

  /** `Math.max(0, n)` */
  function Max0(n: int): (r: nat)
    ensures r >= n && (n >= 0 ==> r == n)
  {
    if n < 0 then 0 else n
  }

  /** The requests an accept or reject leaves: every entry with another id. */
  function WithoutRequest(list: seq<ChatReq>, requestId: int): (r: seq<ChatReq>)
    ensures forall x :: x in r <==> x in list && x.id != requestId
  {
    Filter(list, (x: ChatReq) => x.id != requestId)
  }

  /** The number an accept or reject removes is the number of entries with that id. */
  lemma RemovedCount(list: seq<ChatReq>, requestId: int)
    ensures |list| - |WithoutRequest(list, requestId)| == |Filter(list, (x: ChatReq) => x.id == requestId)|
  {
    FilterSplit(list, (x: ChatReq) => x.id != requestId, (x: ChatReq) => x.id == requestId);
  }

  /** While the count agrees with the lists, the floor at 0 of an accept or reject never engages. */
  lemma RemoveKeepsCount(hearts: seq<Heart>, list: seq<ChatReq>, requestId: int)
    ensures var updated := WithoutRequest(list, requestId);
            Max0(UnreadTotal(hearts, list) - (|list| - |updated|)) == UnreadTotal(hearts, updated)
  {
  }

  /** The chat request a `private_chat_request` push becomes; a missing time is the current time. */
  function PushedRequest(p: Push, now: int): (r: ChatReq)
    requires p.RequestPush?
    ensures r.id == p.requestId && r.createdAt.Some?
    ensures p.createdAt.Some? ==> r.createdAt == p.createdAt
  {
    ChatReq(p.requestId, p.requesterId, p.requesterUsername, if p.createdAt.Some? then p.createdAt else Some(now))
  }

  /** Whether a clear empties the local state: no user, a DELETE that succeeded, or a request that threw. */
  predicate ClearsLocal(userId: JsValue, outcome: ClearOutcome) {
    Falsy(userId) || outcome.Threw? || outcome.heartsOk || outcome.requestsOk
  }

  class NotificationState {
    /** `notifications`: the heart notices shown. */
    var hearts: seq<Heart>
    /** `chatRequests` */
    var requests: seq<ChatReq>
    var unreadCount: int

    /** The badge agrees with the lists. */
    ghost predicate CountAgrees()
      reads this`hearts, this`requests, this`unreadCount
    {
      unreadCount == UnreadTotal(hearts, requests)
    }

    constructor()
      ensures hearts == [] && requests == [] && unreadCount == 0
      ensures CountAgrees() && Dated(requests)
    {
      hearts := [];
      requests := [];
      unreadCount := 0;
    }

    /**
     * `fetchHeartNotifications`; `response` is `None` when there was no
     * answer or it was not ok. The hearts of the last 24 hours replace the
     * list and the count is recalculated.
     */
    method FetchHeartNotifications(userId: JsValue, response: Option<seq<Heart>>, now: int)
      modifies this`hearts, this`unreadCount
      ensures Falsy(userId) || response.None? ==> unchanged(this)
      ensures Truthy(userId) && response.Some? ==>
                hearts == RecentHearts(response.value, now) && CountAgrees()
      ensures old(CountAgrees()) ==> CountAgrees()
    {
      if Falsy(userId) || response.None? {
        return;
      }
      hearts := RecentHearts(response.value, now);
      unreadCount := UnreadTotal(hearts, requests);
    }

    /**
     * `fetchChatRequests`: the recent fetched requests, then each previous
     * one whose id is not among them, sorted newest first; the count is
     * recalculated.
     */
    method FetchChatRequests(userId: JsValue, response: Option<seq<ChatReq>>, now: int)
      modifies this`requests, this`unreadCount
      ensures Falsy(userId) || response.None? ==> unchanged(this)
      ensures Truthy(userId) && response.Some? ==>
                requests == Fetched(response.value, old(requests), now) && CountAgrees()
      ensures old(CountAgrees()) ==> CountAgrees()
      ensures old(Dated(requests)) ==> Dated(requests) && (response.Some? && Truthy(userId) ==> Newest(requests))
    {
      if Falsy(userId) || response.None? {
        return;
      }
      var prev := requests;
      FetchedRequests(response.value, prev, now);
      var merged := MergeRequests(RecentRequests(response.value, now), prev);
      requests := Sort(merged, NewestFirst());
      unreadCount := UnreadTotal(hearts, requests);
    }

    /**
     * `markHeartsAsRead`, after the PATCH answered ok: every heart is read
     * and the count drops by the hearts that were unread.
     */
    method MarkHeartsAsRead(userId: JsValue, ok: bool)
      modifies this`hearts, this`unreadCount
      ensures Falsy(userId) || !ok ==> unchanged(this)
      ensures Truthy(userId) && ok ==>
                hearts == MarkAllRead(old(hearts)) && unreadCount == old(unreadCount) - UnreadHearts(old(hearts))
      ensures old(CountAgrees()) ==> CountAgrees()
    {
      if Falsy(userId) || !ok {
        return;
      }
      var prev := hearts;
      NoneUnreadAfterMark(prev);
      hearts := MarkAllRead(prev);
      unreadCount := unreadCount - UnreadHearts(prev);
    }

    /**
     * The state update shared by `acceptChatRequest` and
     * `rejectChatRequest` once the answer is ok: the entries with that id
     * go, and the count drops by their number, floored at 0.
     */
    method RemoveAnswered(requestId: int, ok: bool)
      modifies this`requests, this`unreadCount
      ensures !ok ==> unchanged(this)
      ensures ok ==>
                && requests == WithoutRequest(old(requests), requestId)
                && unreadCount == Max0(old(unreadCount) - |Filter(old(requests), (x: ChatReq) => x.id == requestId)|)
      ensures old(CountAgrees()) ==> CountAgrees()
      ensures old(Dated(requests)) ==> Dated(requests)
    {
      if !ok {
        return;
      }
      var prev := requests;
      RemovedCount(prev, requestId);
      RemoveKeepsCount(hearts, prev, requestId);
      requests := WithoutRequest(prev, requestId);
      unreadCount := Max0(unreadCount - (|prev| - |requests|));
    }

    /**
     * `addNotification`: a heart is put first and counted; a chat request
     * whose id is new is put first and the count recalculated; the other
     * kinds change nothing.
     */
    method AddNotification(p: Push, now: int)
      modifies this`hearts, this`requests, this`unreadCount
      ensures p.HeartPush? ==>
                hearts == [p.heart] + old(hearts) && requests == old(requests) && unreadCount == old(unreadCount) + 1
      ensures p.RequestPush? && HasReqId(old(requests), p.requestId) ==> unchanged(this)
      ensures p.RequestPush? && !HasReqId(old(requests), p.requestId) ==>
                && requests == [PushedRequest(p, now)] + old(requests)
                && hearts == old(hearts) && CountAgrees()
      ensures !p.HeartPush? && !p.RequestPush? ==> unchanged(this)
      ensures old(CountAgrees()) && !(p.HeartPush? && p.heart.isRead) ==> CountAgrees()
      ensures old(Dated(requests)) ==> Dated(requests)
    {
      match p
      case HeartPush(h) =>
        PrependHeart(h, hearts);
        hearts := [h] + hearts;
        unreadCount := unreadCount + 1;
      case RequestPush(_, _, _, _) =>
        if !HasReqId(requests, p.requestId) {
          requests := [PushedRequest(p, now)] + requests;
          unreadCount := UnreadTotal(hearts, requests);
        }
      case _ =>
    }

    /**
     * `clearAllNotifications`: both lists emptied and the count zeroed
     * unless both DELETE requests answered with an error.
     */
    method ClearAllNotifications(userId: JsValue, outcome: ClearOutcome)
      modifies this`hearts, this`requests, this`unreadCount
      ensures ClearsLocal(userId, outcome) ==> hearts == [] && requests == [] && unreadCount == 0
      ensures !ClearsLocal(userId, outcome) ==> unchanged(this)
      ensures old(CountAgrees()) ==> CountAgrees()
    {
      if ClearsLocal(userId, outcome) {
        hearts, requests, unreadCount := [], [], 0;
      }
    }
  }
}
