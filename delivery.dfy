/**
 * The optimistic send of the chat room client: each message sent is
 * tracked under its client token with a count of failed HTTP attempts
 * until the socket acknowledgement or an HTTP answer confirms it, or the
 * third failed attempt gives it up and marks it failed.
 *
 * Two versions of the retry loop are here. The `AsWritten` functions
 * follow the client as written: marking a message delivered deletes its
 * pending entry, so the later `delivered` check never sees it and a retry
 * chain already running recreates the entry. The others drop a retry or a
 * failure whose token is no longer pending, and they are what the room
 * model uses.
 */
module Delivery {
  import opened Wrappers
  import opened Reconcile
  import opened Merge

  const MESSAGE_MAX_RETRIES: nat := 2

  /** What confirms a send: the socket acknowledgement's id, or the row the HTTP answer carries. */
  datatype Patch = IdPatch(id: MsgId) | RowPatch(saved: Msg)

  /** `{ ...m, ...patch, pending: false, failed: false }` */
  function Patched(m: Msg, patch: Patch): (r: Msg)
    ensures !r.pending && !r.failed
  {
    match patch
    case IdPatch(id) => m.(id := id, pending := false, failed := false)
    case RowPatch(saved) => Overlay(m, saved)
  }

  /** The list and the pending entries (token to attempts so far). */
  datatype Sends = Sends(list: seq<Msg>, pending: map<string, nat>)

  /** `markDelivered`: the entries with the token are confirmed and the pending entry is deleted. */
  function MarkDelivered(s: Sends, c: string, patch: Patch): (r: Sends)
    ensures r.pending == s.pending - {c} && |r.list| == |s.list|
    ensures forall i :: 0 <= i < |s.list| ==>
              r.list[i] == if s.list[i].clientId == Some(c) then Patched(s.list[i], patch) else s.list[i]
  {
    Sends(seq(|s.list|, i requires 0 <= i < |s.list| =>
                if s.list[i].clientId == Some(c) then Patched(s.list[i], patch) else s.list[i]),
          s.pending - {c})
  }

  /** The entries with the token are no longer pending and are marked failed. */
  function MarkFailed(list: seq<Msg>, c: string): (r: seq<Msg>)
    ensures |r| == |list|
    ensures forall i :: 0 <= i < |list| ==>
              r[i] == if list[i].clientId == Some(c) then list[i].(pending := false, failed := true) else list[i]
  {
    seq(|list|, i requires 0 <= i < |list| =>
          if list[i].clientId == Some(c) then list[i].(pending := false, failed := true) else list[i])
  }

  /** After a failed post: give up (and fetch), or wait and retry. */
  datatype FailStep = FailStep(sends: Sends, gaveUp: bool, retry: bool)

  /** The catch block of `sendWithRetry`, with the attempts read when the post started. */
  function PostFailedAsWritten(s: Sends, c: string, attempts: nat): (r: FailStep)
    ensures r.gaveUp <==> attempts + 1 > MESSAGE_MAX_RETRIES
    ensures r.retry <==> !r.gaveUp
  {
    var next := attempts + 1;
    if next > MESSAGE_MAX_RETRIES then FailStep(Sends(MarkFailed(s.list, c), s.pending - {c}), true, false)
    else FailStep(Sends(s.list, s.pending[c := next]), false, true)
  }

  /** A retry timer firing: the post always goes out, with the attempts of the entry or 0 when it is gone. */
  function RetryAttemptsAsWritten(s: Sends, c: string): nat {
    if c in s.pending then s.pending[c] else 0
  }

  /** The failure of a post whose token is no longer pending changes nothing. */
  function PostFailed(s: Sends, c: string, attempts: nat): (r: FailStep)
    ensures c !in s.pending ==> r == FailStep(s, false, false)
    ensures c in s.pending ==> r == PostFailedAsWritten(s, c, attempts)
  {
    if c !in s.pending then FailStep(s, false, false) else PostFailedAsWritten(s, c, attempts)
  }

  /** A retry timer firing posts only while the token is pending. */
  function RetryAttempts(s: Sends, c: string): (r: Option<nat>)
    ensures r.Some? <==> c in s.pending
    ensures r.Some? ==> r.value == s.pending[c]
  {
    if c in s.pending then Some(s.pending[c]) else None
  }

  /** Confirmed: no longer pending, and every entry with the token is shown as sent. */
  ghost predicate IsConfirmed(s: Sends, c: string) {
    c !in s.pending && forall m :: m in s.list && m.clientId == Some(c) ==> !m.pending && !m.failed
  }

  /** Attempt counts never pass the retry limit. */
  ghost predicate AttemptsBounded(pending: map<string, nat>) {
    forall c :: c in pending ==> pending[c] <= MESSAGE_MAX_RETRIES
  }

  /** What can happen to a send after it went out. */
  datatype SendEvent =
    | SocketAck(c: string, ok: bool, ackClientId: string, ackId: int)
    | PostOk(c: string, saved: Msg)
    | PostFail(c: string, attempts: nat)
    | RetryFire(c: string)

  function ApplyAsWritten(s: Sends, ev: SendEvent): Sends {
    match ev
    case SocketAck(c, ok, ackC, id) => if ok && ackC == c then MarkDelivered(s, c, IdPatch(NumId(id))) else s
    case PostOk(c, saved) => MarkDelivered(s, c, RowPatch(saved))
    case PostFail(c, attempts) => PostFailedAsWritten(s, c, attempts).sends
    case RetryFire(c) => s
  }

  function Apply(s: Sends, ev: SendEvent): Sends {
    match ev
    case SocketAck(c, ok, ackC, id) => if ok && ackC == c then MarkDelivered(s, c, IdPatch(NumId(id))) else s
    case PostOk(c, saved) => MarkDelivered(s, c, RowPatch(saved))
    case PostFail(c, attempts) => PostFailed(s, c, attempts).sends
    case RetryFire(c) => s
  }

  function ApplyAll(s: Sends, evs: seq<SendEvent>): Sends
    decreases |evs|
  {
    if evs == [] then s else ApplyAll(Apply(s, evs[0]), evs[1..])
  }

  /** One event keeps a confirmed send confirmed. */
  lemma ApplyKeepsConfirmed(s: Sends, ev: SendEvent, c: string)
    requires IsConfirmed(s, c)
    ensures IsConfirmed(Apply(s, ev), c)
  {
    var r := Apply(s, ev);
    forall m | m in r.list && m.clientId == Some(c) ensures !m.pending && !m.failed {
      var i :| 0 <= i < |r.list| && r.list[i] == m;
      assert s.list[i] in s.list;
    }
  }

  /** Once a send is confirmed, no later acknowledgement, answer, failure or retry marks it failed. */
  lemma {:induction false} ConfirmedNeverFails(s: Sends, evs: seq<SendEvent>, c: string)
    requires IsConfirmed(s, c)
    ensures IsConfirmed(ApplyAll(s, evs), c)
    decreases |evs|
  {
    if evs != [] {
      ApplyKeepsConfirmed(s, evs[0], c);
      ConfirmedNeverFails(Apply(s, evs[0]), evs[1..], c);
    }
  }

  /** The retry and failure steps keep attempt counts within the limit. */
  lemma ApplyKeepsBounded(s: Sends, ev: SendEvent)
    requires AttemptsBounded(s.pending)
    requires ev.PostFail? ==> ev.attempts <= MESSAGE_MAX_RETRIES
    ensures AttemptsBounded(Apply(s, ev).pending)
  {
  }

  /**
   * A send whose every post fails is given up on the third failure, never
   * earlier: the attempts read by the three posts are 0, 1 and 2.
   */
  lemma ThirdFailureGivesUp(s: Sends, c: string)
    requires s.pending == map[c := 0]
    ensures var f1 := PostFailed(s, c, 0);
            var f2 := PostFailed(f1.sends, c, RetryAttempts(f1.sends, c).value);
            var f3 := PostFailed(f2.sends, c, RetryAttempts(f2.sends, c).value);
            && f1.retry && !f1.gaveUp && RetryAttempts(f1.sends, c) == Some(1)
            && f2.retry && !f2.gaveUp && RetryAttempts(f2.sends, c) == Some(2)
            && f3.gaveUp && c !in f3.sends.pending
  {
  }

  /**
   * As written, a socket acknowledgement that arrives while the first post
   * is in flight does not stop the retry chain: the failed post recreates
   * the pending entry, two retries fail too, and the delivered message,
   * already carrying its server id, ends up marked failed.
   */
  lemma AckedMessageMarkedFailedAsWritten(m: Msg, c: string)
    requires m.clientId == Some(c) && m.id == TokenId(c) && m.pending && !m.failed
    ensures var s0 := Sends([m], map[c := 0]);
            var s1 := ApplyAsWritten(s0, SocketAck(c, true, c, 42));
            var f1 := PostFailedAsWritten(s1, c, 0);
            var f2 := PostFailedAsWritten(f1.sends, c, RetryAttemptsAsWritten(f1.sends, c));
            var f3 := PostFailedAsWritten(f2.sends, c, RetryAttemptsAsWritten(f2.sends, c));
            && IsConfirmed(s1, c)
            && f3.gaveUp
            && f3.sends.list[0].id == NumId(42) && f3.sends.list[0].failed
  {
    var s0 := Sends([m], map[c := 0]);
    var s1 := ApplyAsWritten(s0, SocketAck(c, true, c, 42));
    assert s1.list == [Patched(m, IdPatch(NumId(42)))];
  }

  /** Failures and retries of a token that is no longer pending change nothing. */
  lemma {:induction false} StaleEventsChangeNothing(s: Sends, c: string, evs: seq<SendEvent>)
    requires c !in s.pending
    requires forall i :: 0 <= i < |evs| ==> evs[i] == RetryFire(c) || (evs[i].PostFail? && evs[i].c == c)
    ensures ApplyAll(s, evs) == s
    decreases |evs|
  {
    if evs != [] {
      assert Apply(s, evs[0]) == s;
      StaleEventsChangeNothing(s, c, evs[1..]);
    }
  }

  /** With the pending check, the same events leave the message confirmed. */
  lemma AckedMessageStaysConfirmed(m: Msg, c: string)
    requires m.clientId == Some(c) && m.id == TokenId(c) && m.pending && !m.failed
    ensures var s0 := Sends([m], map[c := 0]);
            var s1 := Apply(s0, SocketAck(c, true, c, 42));
            var s2 := ApplyAll(s1, [PostFail(c, 0), RetryFire(c), PostFail(c, 1), RetryFire(c), PostFail(c, 2)]);
            IsConfirmed(s2, c) && |s2.list| == 1 && s2.list[0].id == NumId(42) && !s2.list[0].failed
  {
    var s0 := Sends([m], map[c := 0]);
    var s1 := Apply(s0, SocketAck(c, true, c, 42));
    assert s1.list == [Patched(m, IdPatch(NumId(42)))];
    var evs := [PostFail(c, 0), RetryFire(c), PostFail(c, 1), RetryFire(c), PostFail(c, 2)];
    StaleEventsChangeNothing(s1, c, evs);
  }
}
