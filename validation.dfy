/**
 * The request validators of the chat server: each takes a raw value from a
 * request body, a query string or a socket payload and either rejects it
 * with the server's error message or hands back a sanitized value.
 */
module Validation {
  import opened Wrappers
  import opened Js

  datatype Checked<T> = Valid(sanitized: T) | Invalid(error: string)

  const MAX_MESSAGE_LENGTH: nat := 500
  const MAX_JOURNAL_LENGTH: nat := 2000

  /** The five mood rooms. */
  const Moods: seq<string> := ["happy", "chill", "energetic", "sad", "romantic"]

  predicate UsernameChar(c: char) {
    ('a' <= c <= 'z') || ('A' <= c <= 'Z') || ('0' <= c <= '9') || c == '_' || c == '-'
  }

  predicate UsernameChars(s: string) {
    forall i :: 0 <= i < |s| ==> UsernameChar(s[i])
  }

  /** 3 to 30 UTF-16 code units, each a letter, a digit, `_` or `-`; the name comes back unchanged. */
  function ValidateUsername(v: JsValue): (r: Checked<string>)
    ensures r.Valid? <==> v.Str? && 3 <= Utf16Length(v.s) <= 30 && UsernameChars(v.s)
    ensures r.Valid? ==> r.sanitized == v.s
  {
    if Falsy(v) || !v.Str? then Invalid("Username is required and must be a string")
    else if Utf16Length(v.s) < 3 || Utf16Length(v.s) > 30 then Invalid("Username must be between 3 and 30 characters")
    else if !UsernameChars(v.s) then
      Invalid("Username can only contain letters, numbers, underscores, and hyphens")
    else
      UsernameTrimmed(v.s);
      Valid(Trim(v.s))
  }

  lemma UsernameCharNotSpace(c: char)
    requires UsernameChar(c)
    ensures !IsSpace(c)
  {
  }

  /** A name made of username characters has no white space to trim. */
  lemma UsernameTrimmed(s: string)
    requires UsernameChars(s)
    ensures Trim(s) == s
  {
    forall i | 0 <= i < |s| ensures !IsSpace(s[i]) {
      UsernameCharNotSpace(s[i]);
    }
    TrimNoSpace(s);
  }

  /** A mood name in any letter case; the sanitized value is its lower-case form. */
  function ValidateMoodId(v: JsValue): (r: Checked<string>)
    ensures r.Valid? <==> v.Str? && LowerAscii(v.s) in Moods
    ensures r.Valid? ==> r.sanitized in Moods && r.sanitized == LowerAscii(v.s)
  {
    if Falsy(v) || !v.Str? then Invalid("Mood ID is required and must be a string")
    else if LowerAscii(v.s) !in Moods then Invalid("Invalid mood ID")
    else Valid(LowerAscii(v.s))
  }

  /** The whole string is `private_` followed by one or more decimal digits. */
  predicate IsPrivateRoomName(s: string) {
    |s| > 8 && s[..8] == "private_" && AllDigits(s[8..])
  }

  /**
   * A mood room (lower-cased) or a private room `private_<digits>` (kept
   * exactly as given).
   */
  function ValidateRoomId(v: JsValue): (r: Checked<string>)
    ensures r.Valid? <==> v.Str? && (LowerAscii(v.s) in Moods || IsPrivateRoomName(v.s))
    ensures r.Valid? && LowerAscii(v.s) in Moods ==> r.sanitized == LowerAscii(v.s)
    ensures r.Valid? && LowerAscii(v.s) !in Moods ==> r.sanitized == v.s && IsPrivateRoomName(v.s)
  {
    if Falsy(v) || !v.Str? then Invalid("Room ID is required and must be a string")
    else
      var mood := ValidateMoodId(v);
      if mood.Valid? then mood
      else if IsPrivateRoomName(v.s) then Valid(v.s)
      else Invalid("Invalid room ID")
  }

  /** `parseInt` (radix picked from the string) must give a positive integer, which is the sanitized id. */
  function ValidateUserId(v: JsValue): (r: Checked<int>)
    ensures r.Valid? <==> ParseInt(v, false).Some? && ParseInt(v, false).value > 0
    ensures r.Valid? ==> r.sanitized > 0 && Some(r.sanitized) == ParseInt(v, false)
    ensures r.Invalid? ==> r.error == "Invalid user ID"
  {
    match ParseInt(v, false)
    case None => Invalid("Invalid user ID")
    case Some(id) => if id <= 0 then Invalid("Invalid user ID") else Valid(id)
  }

  /** A non-empty string of at most 2000 UTF-16 code units; the sanitized value is trimmed. */
  function ValidateJournalText(v: JsValue): (r: Checked<string>)
    ensures r.Valid? <==> v.Str? && v.s != [] && Utf16Length(v.s) <= MAX_JOURNAL_LENGTH
    ensures r.Valid? ==> r.sanitized == Trim(v.s)
  {
    if Falsy(v) || !v.Str? then Invalid("Journal text is required and must be a string")
    else if Utf16Length(v.s) > MAX_JOURNAL_LENGTH then Invalid("Journal text cannot exceed 2000 characters")
    else Valid(Trim(v.s))
  }

  /**
   * A non-empty string whose untrimmed length, in UTF-16 code units, is at
   * most 500; the sanitized
   * value is the trimmed text.
   */
  function ValidateMessageText(v: JsValue): (r: Checked<string>)
    ensures r.Valid? <==> v.Str? && v.s != [] && Utf16Length(v.s) <= MAX_MESSAGE_LENGTH
    ensures r.Valid? ==> r.sanitized == Trim(v.s) && |r.sanitized| <= MAX_MESSAGE_LENGTH
  {
    if Falsy(v) || !v.Str? then Invalid("Message text is required and must be a string")
    else if Utf16Length(v.s) > MAX_MESSAGE_LENGTH then Invalid("Message text cannot exceed 500 characters")
    else Valid(Trim(v.s))
  }

  /** Both ids present, and not the same value under `===` (no conversion). */
  function ValidateHeartNotification(sender: JsValue, receiver: JsValue): (r: Checked<()>)
    ensures r.Valid? <==> Truthy(sender) && Truthy(receiver) && sender != receiver
  {
    if Falsy(sender) || Falsy(receiver) then Invalid("Both sender and receiver IDs are required")
    else if sender == receiver then Invalid("Cannot send heart to yourself")
    else Valid(())
  }

  /** A string of 6 to 100 UTF-16 code units. */
  function ValidatePassword(v: JsValue): (r: Checked<()>)
    ensures r.Valid? <==> v.Str? && 6 <= Utf16Length(v.s) <= 100
  {
    if Falsy(v) || !v.Str? then Invalid("Password is required and must be a string")
    else if Utf16Length(v.s) < 6 then Invalid("Password must be at least 6 characters long")
    else if Utf16Length(v.s) > 100 then Invalid("Password cannot exceed 100 characters")
    else Valid(())
  }

  // ---- Properties ----

  function Repeat(c: char, n: nat): (s: string)
    ensures |s| == n && forall i :: 0 <= i < n ==> s[i] == c
  {
    if n == 0 then [] else Repeat(c, n - 1) + [c]
  }

  /** A repeated character is one code unit each, or two beyond U+FFFF. */
  lemma {:induction false} RepeatLength(c: char, n: nat)
    ensures Utf16Length(Repeat(c, n)) == if Astral(c) then 2 * n else n
  {
    if n > 0 {
      var prev := Repeat(c, n - 1);
      RepeatLength(c, n - 1);
      Utf16LengthAppend(prev, c);
    }
  }

  /** The message limit is inclusive: 500 characters pass, 501 do not. */
  lemma MessageLengthBoundary()
    ensures ValidateMessageText(Str(Repeat('a', 500))).Valid?
    ensures ValidateMessageText(Str(Repeat('a', 501))) == Invalid("Message text cannot exceed 500 characters")
  {
    RepeatLength('a', 500);
    RepeatLength('a', 501);
  }

  /**
   * The limit counts UTF-16 code units: a character beyond U+FFFF (an
   * emoji such as U+1F600) counts twice, so 250 of them fill the limit and
   * 251 are refused.
   */
  lemma AstralCountsTwice(c: char, n: nat)
    requires Astral(c)
    ensures ValidateMessageText(Str(Repeat(c, n))).Valid? <==> 0 < n <= 250
    ensures n > 250 ==> ValidateMessageText(Str(Repeat(c, n))) == Invalid("Message text cannot exceed 500 characters")
  {
    RepeatLength(c, n);
  }

  /**
   * Text made only of white space passes the message check and is stored
   * as the empty string; the 500 limit applies before trimming.
   */
  lemma {:induction false} BlankMessageAccepted(s: string)
    requires 0 < Utf16Length(s) <= MAX_MESSAGE_LENGTH
    requires forall i :: 0 <= i < |s| ==> IsSpace(s[i])
    ensures ValidateMessageText(Str(s)) == Valid("")
  {
    assert TrimStart(s) == [] by {
      assert |s| - |TrimStart(s)| == |s| by {
        var t := TrimStart(s);
        if t != [] {
          assert false;
        }
      }
    }
  }

  lemma LowerIdempotent(s: string)
    ensures LowerAscii(LowerAscii(s)) == LowerAscii(s)
  {
  }

  /** No room name can be read both as a mood and as a private room. */
  lemma {:induction false} MoodNotPrivate(s: string)
    requires IsPrivateRoomName(s)
    ensures LowerAscii(s) !in Moods
  {
    var l := LowerAscii(s);
    assert l[0] == LowerChar(s[0]) == 'p';
  }

  /** Validating the sanitized room id again gives the same result. */
  lemma {:induction false} RoomIdIdempotent(v: JsValue)
    requires ValidateRoomId(v).Valid?
    ensures ValidateRoomId(Str(ValidateRoomId(v).sanitized)) == ValidateRoomId(v)
  {
    var s := v.s;
    LowerIdempotent(s);
    if LowerAscii(s) !in Moods {
      MoodNotPrivate(s);
    }
  }

  /** A positive number, or its decimal string, passes the user-id check and comes back as itself. */
  lemma {:induction false} UserIdRoundTrip(n: int)
    requires n > 0
    ensures ValidateUserId(Num(n)) == Valid(n)
    ensures ValidateUserId(Str(IntToString(n))) == Valid(n)
  {
    ParseIntOfIntToString(n, false);
  }

  /** The user-id check ignores trailing junk after the digits. */
  lemma UserIdTrailingJunk()
    ensures ValidateUserId(Str("12abc")) == Valid(12)
  {
    assert "12abc" == "12" + "abc";
    LeadingDigitsOfDigits("12", "abc");
    NatToStringValue(12);
    assert NatToString(12) == "12";
    assert !IsSpace("12abc"[0]);
    TrimStartKeeps("12abc");
    assert ParseUnsigned("12abc", false) == Some(12);
    assert ParseIntString("12abc", false) == Some(12);
    assert ParseInt(Str("12abc"), false) == Some(12);
  }

  /** Without a radix, `parseInt` reads a `0x` prefix as hexadecimal. */
  lemma UserIdHex()
    ensures ValidateUserId(Str("0x1A")) == Valid(26)
  {
    TrimStartKeeps("0x1A");
    HexDigitsValue();
    assert ParseUnsigned("0x1A", false) == Some(26);
  }

  lemma HexDigitsValue()
    ensures "0x1A"[2..] == "1A"
    ensures LeadingDigits("1A", 16) == "1A" && DigitsValue("1A", 16) == 26
  {
    assert "0x1A"[2..] == "1A";
    assert "1A"[1..] == "A" && "A"[1..] == [];
    assert "1A"[..1] == "1" && "1"[..0] == [];
  }

  /** A negative number is rejected. */
  lemma UserIdRejectsNegative()
    ensures ValidateUserId(Str("-3")).Invalid?
  {
    TrimStartKeeps("-3");
    assert "-3"[1..] == "3";
    assert LeadingDigits("3", 10) == "3";
  }

  /** A missing id reads as the string "undefined", which has no digits. */
  lemma UserIdRejectsMissing()
    ensures ValidateUserId(Undefined).Invalid?
  {
    assert ToStr(Undefined) == "undefined";
    TrimStartKeeps("undefined");
    assert LeadingDigits("undefined", 10) == [];
  }

  /** The self-heart check compares raw values: the number 1 and the string "1" are not "the same user". */
  lemma HeartSelfCheckIsRaw()
    ensures ValidateUserId(Num(1)) == ValidateUserId(Str("1")) == Valid(1)
    ensures ValidateHeartNotification(Num(1), Str("1")).Valid?
    ensures ValidateHeartNotification(Num(1), Num(1)) == Invalid("Cannot send heart to yourself")
  {
    StringOneIsUserOne();
    NumOneIsUserOne();
    HeartToSelfRefused();
    assert Str("1") != Str("") && Str("1") != Num(1);
  }

  lemma HeartToSelfRefused()
    ensures ValidateHeartNotification(Num(1), Num(1)) == Invalid("Cannot send heart to yourself")
  {
  }

  lemma NumOneIsUserOne()
    ensures ValidateUserId(Num(1)) == Valid(1)
  {
    UserIdRoundTrip(1);
  }

  lemma StringOneIsUserOne()
    ensures ValidateUserId(Str("1")) == Valid(1)
  {
    UserIdRoundTrip(1);
    OneAsString();
  }

  lemma OneAsString()
    ensures IntToString(1) == "1"
  {
    assert NatToString(1) == [DigitChar(1)];
  }

  /** A valid user name survives trimming: it has no white space to lose. */
  lemma UsernameHasNoSpace(v: JsValue)
    requires ValidateUsername(v).Valid?
    ensures forall i :: 0 <= i < |v.s| ==> !IsSpace(v.s[i])
  {
    assert UsernameChars(v.s);
    forall i | 0 <= i < |v.s| ensures !IsSpace(v.s[i]) {
      UsernameCharNotSpace(v.s[i]);
    }
  }
}
