/**
 * Chat-request notices ("X sent you a chat request.", "X accepted your chat
 * request.") are posted into private rooms as System messages and live for
 * two minutes. Server and client apply the same test.
 */
module Ephemeral {
  import opened Wrappers
  import opened Js

  /** Two minutes, in milliseconds. */
  const TTL_MS: int := 120000

  const REQUEST_SENT: string := "sent you a chat request"
  const REQUEST_ACCEPTED: string := "accepted your chat request"

  /** A System message with non-empty text that announces a chat request or its acceptance. */
  predicate IsEphemeralText(user: string, text: string) {
    user == "System" && text != [] && (Contains(text, REQUEST_SENT) || Contains(text, REQUEST_ACCEPTED))
  }

  /**
   * An ephemeral notice is expired when it has no usable time stamp
   * (missing, unparseable or zero) or when more than two minutes have
   * passed; anything else never expires. `ts` is the time stamp in
   * milliseconds, `None` when it is missing or does not parse.
   */
  predicate IsExpired(user: string, text: string, ts: Option<int>, now: int) {
    IsEphemeralText(user, text) && (ts.None? || ts.value == 0 || now - ts.value > TTL_MS)
  }

  /** The notice is still shown at exactly two minutes and gone one millisecond later. */
  lemma TtlBoundary(user: string, text: string, t: int)
    requires IsEphemeralText(user, text) && t != 0
    ensures !IsExpired(user, text, Some(t), t + TTL_MS)
    ensures IsExpired(user, text, Some(t), t + TTL_MS + 1)
  {
  }

  /** Once expired, a notice stays expired as the clock moves on. */
  lemma ExpiryIsPermanent(user: string, text: string, ts: Option<int>, now: int, later: int)
    requires IsExpired(user, text, ts, now) && now <= later
    ensures IsExpired(user, text, ts, later)
  {
  }

  /** Contains on a literal: any text that starts with the phrase contains it. */
  lemma {:induction false} ContainsSuffix(prefix: string, phrase: string, rest: string)
    ensures Contains(prefix + phrase + rest, phrase)
  {
    if prefix != [] {
      assert (prefix + phrase + rest)[1..] == prefix[1..] + phrase + rest;
      ContainsSuffix(prefix[1..], phrase, rest);
    } else {
      assert (prefix + phrase + rest)[..|phrase|] == phrase;
    }
  }

  /** The notice the server posts when `name` asks for a chat is ephemeral. */
  lemma RequestNoticeIsEphemeral(name: string)
    ensures IsEphemeralText("System", name + " " + REQUEST_SENT + ".")
  {
    ContainsSuffix(name + " ", REQUEST_SENT, ".");
    assert name + " " + REQUEST_SENT + "." == (name + " ") + REQUEST_SENT + ".";
  }

  /** The notice the server posts when `name` accepts a chat is ephemeral. */
  lemma AcceptNoticeIsEphemeral(name: string)
    ensures IsEphemeralText("System", name + " " + REQUEST_ACCEPTED + ".")
  {
    ContainsSuffix(name + " ", REQUEST_ACCEPTED, ".");
    assert name + " " + REQUEST_ACCEPTED + "." == (name + " ") + REQUEST_ACCEPTED + ".";
  }

  /** Only System messages are ever ephemeral. */
  lemma UserMessagesNeverExpire(user: string, text: string, ts: Option<int>, now: int)
    requires user != "System"
    ensures !IsExpired(user, text, ts, now)
  {
  }
}
