# mood-app message delivery, modelled in Dafny

mood-app is a chat application. Users join a mood room (happy, chill,
energetic, sad, romantic) or a private room `private_<n>` opened by an
accepted chat request. This project models three parts of it:

- **The chat server** (`server/index.js`). Messages reach it over the
  `send_message` socket event or `POST /api/messages`.
  - It validates the fields and looks the client token up before it
    inserts, so a resend stores nothing new.
  - It broadcasts the row to the room and to both participants of a
    private room.
  - For a private room it opens a row per participant in the
    `message_deliveries` ledger, with the sender's row already delivered.
  - `GET /api/messages/:roomId` returns a room's history after an id
    cursor, scoped to a target user.
  - `GET /api/messages/undelivered/:userId` drains the ledger.
    `POST /api/messages/ack` closes ledger rows.
  - Chat-request notices are System messages that expire after two
    minutes.
  - `userSocketMap` records the sockets of each user.
  - Private chat requests move from pending to accepted or rejected, and
    a request row is reused when the pair asks again.
- **The chat room client** (`src/components/VibeRoom.jsx`). It keeps a
  message list and merges into it:
  - pushed `receive_message` events;
  - history answers (upsert by client token, then by id, sorted by id);
  - undelivered drains, which it acknowledges.

  It tracks the highest id it has seen, fetches the whole history when it
  sees a gap or three empty delta answers in a row, and polls private
  rooms. A message is sent optimistically: it shows as pending until a
  socket acknowledgement or an HTTP answer confirms it, and it is marked
  failed after three failed HTTP attempts.
- **The notification state** (`src/contexts/NotificationContext.jsx`). It
  holds heart notices and chat requests from fetches and socket pushes,
  keeps only those of the last 24 hours, merges and sorts requests newest
  first, and keeps an unread badge count.

The SQLite tables are sequences of rows with auto-increment counters. The
delivery ledger is a map from (message id, user id) to the delivery time.
Socket emits are appended to an outbox. `Date.now()` is an integer `now`
parameter. Each socket event, HTTP request, fetch answer and timer firing
is one method call. Values arriving from JSON are a small `JsValue`
datatype; numbers are integers.

Where the system's written design and its code differ, the model follows
the code:

- The design says the `send_message` acknowledgement callback is always
  answered. In the code, a refused send only emits `error` to the sender's
  socket and never calls the callback (server/index.js:433-451).
  `Sending.SendSpec` follows the code.
- The design lists the checks as room, then author, then text. The code
  checks text, then user id, then room, and reports the first failure
  (`Sending.Check`).
- The design says whichever path confirms a send first cancels the other
  path's retry loop. The code does not do this (see "## Findings").

Files:

| file | module | models |
|---|---|---|
| `wrappers.dfy` | `Wrappers` | Option and Result |
| `js.dfy` | `Js` | JavaScript values, truthiness, `parseInt`, `trim`, `String(n)` |
| `seqs.dfy` | `Seqs` | filter, map-then-filter, a stable insertion sort with a comparator, order predicates |
| `validation.dfy` | `Validation` | the server's input validators |
| `ephemeral.dfy` | `Ephemeral` | the two-minute rule for chat-request notices |
| `store.dfy` | `Store` | the messages table, the history query, the delivery ledger, drain and ack |
| `events.dfy` | `Events` | socket emits as an outbox |
| `presence.dfy` | `Presence` | `userSocketMap` |
| `database.dfy` | `Database` | all tables together and their invariant |
| `send.dfy` | `Sending` | the send pipeline shared by both entry points |
| `chat_requests.dfy` | `ChatRequests` | private chat request, respond, and room lookup |
| `server.dfy` | `ChatServer` | class `Server`: the handlers over the whole state |
| `reconcile.dfy` | `Reconcile` | the client's message list, receive merge, expiry, poll rule |
| `merge.dfy` | `Merge` | the merge of a history answer |
| `delivery.dfy` | `Delivery` | optimistic send and bounded retry |
| `vibe_room.dfy` | `RoomClient` | class `Room`: the chat room client's handlers |
| `notifications.dfy` | `Notifications` | class `NotificationState` |

## Model

| member | source | states |
|---|---|---|
| Js.Utf16Length | server/index.js:80 | `text.length`: between the character count and twice it |
| Js.Utf16LengthIsLength | server/index.js:80 | The code-unit length equals the character count exactly when no character lies beyond U+FFFF |
| Js.Utf16Prefix | server/index.js:456 | `substring(0, n)`: a prefix within `n` code units, the whole string when it fits, and the longest such prefix |
| Validation.ValidateUsername | server/index.js:12-23 | Valid exactly for a string of 3 to 30 UTF-16 code units, each a letter, digit, `_` or `-`; the name comes back unchanged |
| Validation.UsernameHasNoSpace | server/index.js:12-23 | A valid user name contains no white space, so trimming it loses nothing |
| Validation.ValidateMoodId | server/index.js:25-34 | Valid exactly when the lower-cased string is one of the five moods; the sanitized value is that lower-case mood |
| Validation.ValidateRoomId | server/index.js:36-50 | Valid exactly for a mood name in any case (returned lower-cased) or a whole `private_<digits>` string (returned as given) |
| Validation.MoodNotPrivate | server/index.js:36-50 | No room name is both a mood and a private room name, so the two branches never overlap |
| Validation.RoomIdIdempotent | server/index.js:36-50 | Validating a sanitized room id again gives the same result |
| Validation.ValidateUserId | server/index.js:52-64 | Valid exactly when `parseInt` gives a positive integer, which is the sanitized id; otherwise "Invalid user ID" |
| Validation.UserIdRoundTrip | server/index.js:52-64 | A positive number, or its decimal string, is accepted and comes back as itself |
| Validation.UserIdTrailingJunk | server/index.js:52-64 | "12abc" is accepted as 12: junk after the digits is ignored |
| Validation.UserIdHex | server/index.js:52-64 | "0x1A" is accepted as 26, because `parseInt` without a radix reads hexadecimal |
| Validation.UserIdRejectsNegative | server/index.js:52-64 | "-3" is rejected |
| Validation.UserIdRejectsMissing | server/index.js:52-64 | A missing id is rejected |
| Validation.ValidateJournalText | server/index.js:66-74 | Valid exactly for a non-empty string of at most 2000 UTF-16 code units; the sanitized text is trimmed |
| Validation.ValidateMessageText | server/index.js:76-84 | Valid exactly for a non-empty string whose untrimmed length in UTF-16 code units is at most 500; the sanitized text is trimmed and within the limit |
| Validation.AstralCountsTwice | server/index.js:76-84 | A character beyond U+FFFF counts as two code units: 250 of them pass, 251 fail with "Message text cannot exceed 500 characters" |
| Validation.MessageLengthBoundary | server/index.js:76-84 | 500 characters pass; 501 fail with "Message text cannot exceed 500 characters" |
| Validation.BlankMessageAccepted | server/index.js:76-84 | Text made only of white space passes and is stored as the empty string |
| Validation.ValidateHeartNotification | server/index.js:86-94 | Valid exactly when both ids are present and are not the same raw value |
| Validation.HeartSelfCheckIsRaw | server/index.js:86-94 | The number 1 and the string "1" name the same user, yet the self-heart check lets them through; 1 and 1 are refused |
| Validation.ValidatePassword | server/index.js:107-118 | Valid exactly for a string of 6 to 100 UTF-16 code units |
| Ephemeral.TtlBoundary | server/index.js:1228-1233 | A notice is still shown exactly 120000 ms after its time stamp and expired 1 ms later |
| Ephemeral.ExpiryIsPermanent | server/index.js:1228-1233 | Once a notice has expired it stays expired as time moves on |
| Ephemeral.UserMessagesNeverExpire | server/index.js:1213-1217 | Only System messages can expire |
| Ephemeral.RequestNoticeIsEphemeral | server/index.js:1213-1217 | The "sent you a chat request." notice falls under the two-minute rule |
| Ephemeral.AcceptNoticeIsEphemeral | server/index.js:1213-1217 | The "accepted your chat request." notice falls under the two-minute rule |
| Presence.AddSocket | server/index.js:378-390 | The user gains a key if it had none and gains the socket; other users are untouched |
| Presence.AddKeepsValid | server/index.js:378-390 | Adding a socket under a truthy id keeps the map free of falsy keys and empty sets |
| Presence.RemoveSocket | server/index.js:669-678 | The user loses the socket; its key goes exactly when no socket is left; other users are untouched |
| Presence.RemoveKeepsValid | server/index.js:669-678 | Removing a socket keeps the map free of empty sets |
| Presence.RegisterThenDisconnectRestores | server/index.js:664-678 | A socket that registers and then disconnects leaves the map as it found it, the user's key included |
| Presence.ReRegisterLeavesStaleEntry | server/index.js:378-390 | A socket registered under two users in turn stays in the first user's set after it disconnects |
| Store.FindByToken | server/index.js:458-467 | Finds a row of that room with that client token, or tells that there is none |
| Store.LastByToken | server/index.js:512-522 | The same lookup used to read the inserted row back |
| Store.LastInRoom | server/index.js:523-533 | Finds a row of the room, or tells that the room has none |
| Store.Persist | server/index.js:458-509 | A send whose token already has a row in the room stores nothing and answers with that row; any other is appended under the next id with the sanitized fields |
| Store.PersistKeepsInvariants | server/index.js:458-509 | A store step keeps ids increasing and at most one row per room and token |
| Store.PersistIdempotent | server/index.js:458-509 | A second send with the same room and token stores nothing and answers with the first row |
| Store.RepeatedSendsOneRow | server/index.js:458-509 | Any number of sends with one token add at most one row, and every caller gets the same id |
| Store.ReadBackFindsInsert | server/index.js:511-533 | After an insert, the read-back by token (else the room's newest row) finds the inserted row |
| Store.PositiveDecimal | server/index.js:1236-1237 | The cursor is used exactly when `parseInt(v, 10)` is a positive integer |
| Store.History | server/index.js:1236-1260 | A row is returned exactly when it is of the room, after the cursor, addressed to nobody or to the target user, and not an expired notice |
| Store.HistoryOrdered | server/index.js:1236-1259 | History comes back in ascending id order |
| Store.HistoryAfterInsert | server/index.js:1236-1260 | A new row shows up at the end of every query that selects it and changes nothing else |
| Store.HistoryCursorSkipsSeen | server/index.js:1236-1247 | With the cursor at the newest id the query returns nothing |
| Store.InsertOrIgnore | server/index.js:558-569 | Adds the (message, user) row as undelivered unless it exists; existing rows keep their value |
| Store.MarkDelivered | server/index.js:570-575 | Exactly the existing rows of that user and those ids become delivered; no row is added |
| Store.LedgerAfterSend | server/index.js:558-575 | After a private send each participant has a row, the sender's is delivered, a new row of the other participant is undelivered, and older rows are kept |
| Store.Drain | server/index.js:1464-1483 | Returns exactly the user's undelivered, unexpired rows; sets the user's entry of each expired one to `now`; leaves the live ones undelivered; every other ledger entry is unchanged and none is added |
| Store.DrainOrdered | server/index.js:1464-1471 | The drain answers in ascending id order |
| Store.DrainThenAckIsEmpty | server/index.js:1464-1524 | Once the client acknowledges what a drain returned, the next drain returns nothing |
| Store.PositiveIds | server/index.js:1515 | Never more ids than posted values |
| Store.PositiveIdsMembers | server/index.js:1515 | Every id comes from a posted value that reads as that positive integer, and every such value's id is kept |
| Store.PositiveIdsSingleton | server/index.js:1515 | One value gives its id when it reads as a positive integer, and nothing otherwise |
| Store.PositiveIdsAppend | server/index.js:1515 | The ids of two lists in a row are the ids of each in a row: the order of the posted list is kept |
| Store.PositiveIdsKeepsDuplicates | server/index.js:1515 | A repeated id is kept once per occurrence: a number and its decimal string give the id twice |
| Store.AckCountsDuplicates | server/index.js:1515-1525 | The acknowledged count is `ids.length`, which counts a repeated id twice |
| Store.Ack | server/index.js:1510-1525 | A missing, non-array or empty list is refused, and so is a list with no positive id; a list with a positive id succeeds, marks those ids delivered for the user and returns their count |
| Store.AckClosesOnlyOwnRows | server/index.js:1520-1524 | Acknowledging a message closes the user's row and no other user's |
| Sending.SenderName | server/index.js:456 | "Anonymous" when no name is given; otherwise the trimmed name cut to 30 UTF-16 code units |
| Sending.SenderNameFits | server/index.js:456 | The stored name is a prefix of the trimmed name, fits in 30 code units, is the whole name when that fits, and stops only where one more character would pass 30 |
| Sending.Check | server/index.js:432-451 | Accepts exactly when text, user id and room all validate; otherwise the error is the text's, else the user id's, else the room's, each a 400 |
| Sending.Participants | server/index.js:550-557 | Both participants exactly when the room is `private_<n>` and a room row with id `n` exists, and then they are that row's two users; otherwise neither |
| Sending.SendSpec | server/index.js:427-586 | Delivered exactly when the payload checks; a refusal carries the check's error, changes nothing and tells only the sender's socket; a replay happens exactly when the room already holds the client token, stores nothing and answers with that row; a fresh send appends exactly the new row at the next id and, in a private room only, adds the two participants' ledger entries; a delivery is broadcast to the room first, then to the participants |
| Sending.SendKeepsDbValid | server/index.js:506-575 | A send keeps the database invariant |
| Sending.ResendIsReplay | server/index.js:458-503 | Resending a payload with a token, by either entry point, stores nothing, touches no ledger row and answers with the same row |
| Sending.PrivateRoomIsLikePrivate | server/index.js:1469 | Every valid private room name matches the drain's `LIKE 'private_%'` |
| Sending.FreshPrivateSend | server/index.js:550-575 | A fresh private send leaves the new row and the ledger after the send |
| Sending.RecipientSeesSendOnDrain | server/index.js:558-575 | After a fresh private send the other participant's next drain returns it (unless it is an expired notice), and the sender's does not |
| Database.RoomById | server/index.js:553-557 | Finds the room row with that id, or tells that there is none |
| Database.FindActiveRoom | server/index.js:1741-1747 | Finds an active room of the pair in either order, or tells that there is none |
| Database.FindRequestForPair | server/index.js:1706-1714 | Finds the request row of the pair in either direction, or tells that there is none |
| Database.FindRequest | server/index.js:1889-1901 | Finds the request row with that id, or tells that there is none |
| ChatRequests.EnsureRoom | server/index.js:1741-1756 | The pair's active room: the existing one unchanged, else a new active room under the next id |
| ChatRequests.EnsureRoomKeepsValid | server/index.js:1741-1756 | Ensuring a room keeps at most one active room per pair |
| ChatRequests.EnsureRoomStable | server/index.js:1838-1852 | A room ensured for one pair order is found again for the other order |
| ChatRequests.PostNotice | server/index.js:1779-1816 | A System notice is added and broadcast unless the same notice is already in the room, in which case nothing happens |
| ChatRequests.PostNoticeOnce | server/index.js:1784-1797 | Posting the same notice again changes nothing |
| ChatRequests.PostNoticeKeepsValid | server/index.js:1792-1798 | Posting a notice keeps the database invariant |
| ChatRequests.OpenRequest | server/index.js:1706-1738 | With no row for the pair, appends exactly one pending row at the next id; a pending row is left alone; any other row is reset to pending with `a` and `b` in place; the answer names the row's id |
| ChatRequests.OpenRequestKeepsValid | server/index.js:1706-1738 | Opening a request keeps at most one request per pair |
| ChatRequests.RequestChat | server/index.js:1682-1821 | Succeeds exactly when both ids validate and differ as raw values; a failure is a 400 that changes nothing |
| ChatRequests.OpenChat | server/index.js:1704-1818 | The request row is `OpenRequest`'s; the room is the pair's active one or a new one at the next room id; the ledger and users are unchanged; when the row is new or reset and `a` has a name, `b` is pushed the request twice and the notice is posted, otherwise nothing is emitted and no message is stored |
| ChatRequests.RequestChatKeepsValid | server/index.js:1682-1821 | A request keeps the database invariant |
| ChatRequests.RepeatRequestWhilePending | server/index.js:1714-1720 | Asking again while the request is pending changes nothing, notifies nobody and returns the same request id |
| ChatRequests.OpenChatWhilePending | server/index.js:1714-1720 | The same, stated on the validated step |
| ChatRequests.ReRequestReusesRow | server/index.js:1721-1729 | Asking again after an answer resets the same row, at the same place, to pending in the new direction |
| ChatRequests.OpenChatResets | server/index.js:1721-1729 | The same, stated on the validated step |
| ChatRequests.SelfRequestSlipsThrough | server/index.js:1698-1701 | User 5 asking the string "5" is let through; 5 asking 5 is refused |
| ChatRequests.RespondChat | server/index.js:1861-2041 | An invalid response, user id or request id is a 400; no row is a 404; another recipient is a 403; a row already answered is a 400 naming its status; each failure changes nothing; the recipient answering a pending row gets `Answer` and Ok |
| ChatRequests.RespondToPendingRow | server/index.js:1861-1945 | The recipient answering a pending request by its id gets the answer step for that row |
| ChatRequests.FindRequestUnique | server/index.js:1888-1893 | In a valid table a request id finds its own row |
| ChatRequests.Answer | server/index.js:1937-2033 | Sets the row's status only; a reject answers "reject" and pushes the requester twice; an accept answers with the pair's active room (found, or new at the next room id), pushes both users twice and posts the accept notice, leaving ledger and users unchanged |
| ChatRequests.AcceptFindsRoom | server/index.js:1943-1963 | An accept names the pair's one active room |
| ChatRequests.RequestThenRespond | server/index.js:1682-2041 | With no pending request of the pair, a request succeeds, and its recipient answering it by the returned id succeeds; an accept names the room the request named; the row stays with its new status |
| ChatRequests.SetStatusKeepsValid | server/index.js:1937-1941 | Changing a status keeps the database invariant |
| ChatRequests.AnswerKeepsValid | server/index.js:1937-2033 | Answering keeps the database invariant |
| ChatRequests.RespondChatKeepsValid | server/index.js:1861-2041 | A response keeps the database invariant |
| ChatRequests.AnswerOnce | server/index.js:1901-1911 | Answering again, either way, is refused with "Request already accepted" or "Request already rejected" |
| ChatRequests.AlreadyAnswered | server/index.js:1901-1911 | A response to a request that is no longer pending changes nothing and names its status |
| ChatRequests.GetPrivateRoom | server/index.js:1825-1858 | Fails with "Invalid user IDs" exactly when an id does not validate; otherwise answers with an active room of the pair |
| ChatRequests.GetPrivateRoomKeepsValid | server/index.js:1825-1858 | The lookup keeps the database invariant |
| ChatRequests.ActiveRoomUnique | server/index.js:1838-1852 | Under the invariant two active rooms of one pair are the same room |
| ChatRequests.GetPrivateRoomStable | server/index.js:1825-1858 | Looking the room up again, in either order of the users, gives the same room |
| ChatServer.EnterRoom | server/index.js:396-401 | The socket is in the new room, has left the previous one, and keeps its other rooms |
| ChatServer.ServeRoom | server/index.js:1825-1858 | The room lookup's database step, which keeps the invariant |
| ChatServer.ServeSend | server/index.js:427-594 | The send step, by either entry point, keeps the database invariant |
| ChatServer.ServeRequest | server/index.js:1682-1821 | The request step keeps the database invariant |
| ChatServer.ServeRespond | server/index.js:1861-2041 | The respond step keeps the database invariant |
| ChatServer.Server.constructor | server/index.js:368-375 | Empty tables, no sockets and no emits |
| ChatServer.Server.Connect | server/index.js:371-375 | A new socket is in its own room, with no current room and no user |
| ChatServer.Server.RegisterUser | server/index.js:378-390 | A truthy id adds the socket to that user's set and joins `user_<id>`; a falsy one changes nothing |
| ChatServer.Server.JoinRoom | server/index.js:392-415 | The socket switches rooms, then registers the user when an id is given |
| ChatServer.Server.Disconnect | server/index.js:664-681 | The rest of the current room hears `user_left`, and the socket leaves the set of the last user it registered |
| ChatServer.Server.SendMessage | server/index.js:427-594 | The socket send is `SendSpec` on the database and the outbox, and keeps the invariant |
| ChatServer.Server.PostMessage | server/index.js:1291-1430 | The HTTP send is the same step; a refusal is a 400 with the validation message |
| ChatServer.Server.GetMessages | server/index.js:1192-1289 | Succeeds exactly when the room validates and the target user, if given, validates; the answer is exactly the room's history after the cursor, in ascending id order |
| ChatServer.Server.Undelivered | server/index.js:1432-1500 | An invalid user id is a 400 that changes nothing; otherwise the answer and the ledger are those of the drain |
| ChatServer.Server.Ack | server/index.js:1502-1529 | The user id is checked before the list; the answer and the ledger are those of the ack |
| ChatServer.Server.RequestChat | server/index.js:1682-1821 | The request step on the database and the outbox, keeping the invariant |
| ChatServer.Server.RespondChat | server/index.js:1861-2041 | The respond step on the database and the outbox, keeping the invariant |
| ChatServer.Server.GetPrivateRoom | server/index.js:1825-1858 | The room lookup on the database, keeping the invariant |
| Reconcile.Cleanup | src/components/VibeRoom.jsx:84-87 | Keeps exactly the messages that have not expired, in order |
| Reconcile.CleanupIdempotent | src/components/VibeRoom.jsx:84-87 | Cleaning twice is cleaning once |
| Reconcile.ReplaceToken | src/components/VibeRoom.jsx:384-390 | Every entry with the client token is replaced in place and the others stay |
| Reconcile.ReceiveInto | src/components/VibeRoom.jsx:378-392 | A pushed message whose id is already held leaves the cleaned list as it is |
| Reconcile.ReceiveShowsMessage | src/components/VibeRoom.jsx:378-392 | After a receive the message is in the list: the entry already holding its id, its confirmed copy in place of the optimistic entry, or itself at the end; every other live entry is kept |
| Reconcile.ReceiveIdempotent | src/components/VibeRoom.jsx:378-392 | A message pushed twice (to the room and to the user) is merged once |
| Reconcile.ReceiveKeepsDistinct | src/components/VibeRoom.jsx:378-392 | A receive keeps ids and client tokens distinct in the list |
| Reconcile.ExpiryTimerFiresAtTtl | src/components/VibeRoom.jsx:89-107 | The removal timer of a notice fires exactly two minutes after its time stamp |
| Reconcile.ExpiryBoundaryDisagrees | src/components/VibeRoom.jsx:77-107 | At exactly two minutes the cleanup keeps a notice that the timer removes at once |
| Reconcile.PollPlan | src/components/VibeRoom.jsx:505-518 | A full fetch exactly when more than 30 s passed since the last full sync; no fetch exactly when nothing is pending, the socket is up, and the last sync and the last message are recent |
| Reconcile.PollFetchesWhenUnsure | src/components/VibeRoom.jsx:505-518 | A tick always fetches while a send is pending or the socket is down |
| Merge.Put | src/components/VibeRoom.jsx:183-189 | `Map.set`: a present key keeps its place and takes the new value; a new key goes last; keys stay distinct |
| Merge.FromList | src/components/VibeRoom.jsx:180 | Building the map gives distinct keys |
| Merge.UpsertKeepsHeld | src/components/VibeRoom.jsx:182-190 | The upsert loop keeps every key in place; at a held key the value is the held message or the overlay of a fetched message that matched it |
| Merge.UpsertMatchedAddsNothing | src/components/VibeRoom.jsx:182-190 | When every fetched message matches a held one, the map gains no entry |
| Merge.UpsertStoresVisible | src/components/VibeRoom.jsx:182-190 | A fetched message is stored at its target unless a later fetched message takes the same key |
| Merge.UpsertLive | src/components/VibeRoom.jsx:182-192 | Upserting live messages into live entries stores only live values |
| Merge.ValuesLive | src/components/VibeRoom.jsx:192 | The cleanup after the upsert removes nothing |
| Merge.MergeKeepsHeld | src/components/VibeRoom.jsx:176-211 | The merge never drops a held, unexpired message: it comes back as it was or overlaid by the fetched message that matched it |
| Merge.MergeMatchedKeepsLength | src/components/VibeRoom.jsx:176-211 | When every fetched message matches a held one the list does not grow |
| Merge.MergeShowsFetched | src/components/VibeRoom.jsx:176-211 | A fetched message whose key no later fetched message takes is in the result, unless no id changed and the held list came back |
| Merge.IdOrderRanks | src/components/VibeRoom.jsx:193-200 | On numeric ids the comparator orders by id |
| Merge.MergeSorted | src/components/VibeRoom.jsx:192-211 | Once every id is numeric the merged list is in ascending id order |
| Merge.UnchangedIdsKeepFlags | src/components/VibeRoom.jsx:206-210 | When no id changes the held list comes back as it was, so a message marked failed stays failed |
| Merge.SingleUpsert | src/components/VibeRoom.jsx:183-186 | A fetched message matching a held one overlays it under the held key |
| Delivery.Patched | src/components/VibeRoom.jsx:663-667 | A patched entry is neither pending nor failed |
| Delivery.MarkDelivered | src/components/VibeRoom.jsx:658-670 | The entries with the token are patched and no longer pending; the pending entry is deleted; the others stay |
| Delivery.MarkFailed | src/components/VibeRoom.jsx:699-703 | The entries with the token are failed and not pending; the others stay |
| Delivery.PostFailedAsWritten | src/components/VibeRoom.jsx:696-709 | A failed post gives up exactly when attempts + 1 exceeds 2, and schedules a retry otherwise |
| Delivery.PostFailed | src/components/VibeRoom.jsx:696-709 | The same, except that a token no longer pending changes nothing |
| Delivery.RetryAttempts | src/components/VibeRoom.jsx:681-684 | A retry posts exactly while the token is pending, with its attempt count |
| Delivery.ApplyKeepsConfirmed | src/components/VibeRoom.jsx:658-709 | No single event undoes a confirmed send |
| Delivery.ConfirmedNeverFails | src/components/VibeRoom.jsx:658-709 | Once confirmed, no later acknowledgement, answer, failure or retry marks a send failed |
| Delivery.ApplyKeepsBounded | src/components/VibeRoom.jsx:696-708 | Attempt counts never pass the retry limit |
| Delivery.ThirdFailureGivesUp | src/components/VibeRoom.jsx:681-709 | When every post fails, the send is given up on the third failure and not before |
| Delivery.AckedMessageMarkedFailedAsWritten | src/components/VibeRoom.jsx:658-709 | As written, a send acknowledged over the socket while its first post is in flight still ends up marked failed |
| Delivery.StaleEventsChangeNothing | src/components/VibeRoom.jsx:681-709 | Failures and retries of a token no longer pending change nothing |
| Delivery.AckedMessageStaysConfirmed | src/components/VibeRoom.jsx:658-709 | With the pending check, the same events leave the message confirmed |
| RoomClient.RemoveId | src/components/VibeRoom.jsx:98-99 | Keeps exactly the messages with another id |
| RoomClient.ScheduleExpireEffect | src/components/VibeRoom.jsx:89-107 | Scheduling adds timers and removes messages only; a notice with an id ends with a timer or gone; other ids stay |
| RoomClient.ScheduleAllShrinks | src/components/VibeRoom.jsx:89-107 | Scheduling many notices only adds timers and only removes messages |
| RoomClient.ScheduledOrGone | src/components/VibeRoom.jsx:89-107 | Every scheduled notice has a running timer or is gone from the list |
| RoomClient.ScheduleKeepsOthers | src/components/VibeRoom.jsx:89-107 | Scheduling removes only messages that share an id with a scheduled notice |
| RoomClient.MaxNumericIdIsMax | src/components/VibeRoom.jsx:163-166 | The result is the largest numeric id, and there is one exactly when some id is numeric |
| RoomClient.Raise | src/components/VibeRoom.jsx:164-166 | The last id never decreases and reaches the new value |
| RoomClient.AfterFetch | src/components/VibeRoom.jsx:162-174 | Escalates exactly on the third empty delta answer; a non-empty or full answer, or an escalation, resets the counter; the counter stays below 3 |
| RoomClient.ThirdEmptyDeltaEscalates | src/components/VibeRoom.jsx:222-225 | Three empty delta answers in a row: the third asks for the whole history and resets the counter |
| RoomClient.DrainShowsAll | src/components/VibeRoom.jsx:258-287 | Every shown message of a drain ends up in the list, by id |
| RoomClient.DrainAddsOnlyShown | src/components/VibeRoom.jsx:258-287 | The drain appends nothing but shown messages of the answer |
| RoomClient.Floor0 | src/components/VibeRoom.jsx:283-285 | The running maximum is at least 0 and at least the value |
| RoomClient.ClientAcceptedPassesServer | src/components/VibeRoom.jsx:618-623 | A text the client sends passes the server's check and is not stored blank |
| RoomClient.Optimistic | src/components/VibeRoom.jsx:634-647 | The optimistic entry is pending, not failed, and its id is its client token |
| RoomClient.MergeResponse | src/components/VibeRoom.jsx:176-211 | The upsert loop written out gives the merge the lemmas are about |
| RoomClient.ScheduleEach | src/components/VibeRoom.jsx:221 | The `forEach(scheduleExpire)` loop gives `ScheduleAll` |
| RoomClient.MergeHistory | src/components/VibeRoom.jsx:176-221 | The merge of a history answer followed by its expiry scheduling |
| RoomClient.DrainHistory | src/components/VibeRoom.jsx:258-292 | The drain of an undelivered answer followed by the expiry scheduling of the shown messages |
| RoomClient.Drain | src/components/VibeRoom.jsx:259-286 | The drain loop acknowledges every id of the answer, appends the shown messages the list lacks, and tracks their largest numeric id |
| RoomClient.Receive | src/components/VibeRoom.jsx:365-418 | A pushed message is merged and scheduled; a gap after the last id asks for the whole history; the send it confirms stops being pending; a numeric id is acknowledged |
| RoomClient.Room.constructor | src/components/VibeRoom.jsx:304-362 | Mounting keeps the cached list without expired notices, joins the room and fetches the whole history |
| RoomClient.Room.FetchMessages | src/components/VibeRoom.jsx:110-122 | A fetch is queued; a private room always asks for the whole history |
| RoomClient.Room.FetchUndelivered | src/components/VibeRoom.jsx:248-250 | Only a private room with a known user drains |
| RoomClient.Room.OnExpiryTimer | src/components/VibeRoom.jsx:102-105 | The timer removes the messages with that id and forgets the timer |
| RoomClient.Room.OnMessagesResponse | src/components/VibeRoom.jsx:128-230 | A history answer merges the live messages, only raises the last id, keeps the counter below 3, and on the third empty delta asks for the whole history |
| RoomClient.Room.CountResponse | src/components/VibeRoom.jsx:162-174 | The bookkeeping of a history answer: the counter, the sync times, the last id and the escalation |
| RoomClient.Room.ApplyHistory | src/components/VibeRoom.jsx:176-221 | The merge and the timers; the last id is raised to the largest merged id |
| RoomClient.Room.OnUndelivered | src/components/VibeRoom.jsx:257-297 | An empty answer changes nothing; otherwise every id is acknowledged and the shown messages the list lacks are appended |
| RoomClient.Room.OnReceive | src/components/VibeRoom.jsx:365-418 | A message for another room or already expired changes nothing; otherwise it is `Receive` applied to the room |
| RoomClient.Room.OnConnect | src/components/VibeRoom.jsx:445-451 | A reconnect joins, registers, fetches a delta and drains |
| RoomClient.Room.OnVisible | src/components/VibeRoom.jsx:491-500 | A private room becoming visible fetches the whole history and drains; a mood room does nothing |
| RoomClient.Room.PollTick | src/components/VibeRoom.jsx:503-520 | A visible private room fetches as `PollPlan` says and always drains; otherwise nothing |
| RoomClient.Room.Send | src/components/VibeRoom.jsx:616-715 | Sent exactly when the client accepts the text: one optimistic entry is appended, the token is pending with 0 attempts, and the socket emit and the first post are queued |
| RoomClient.Room.OnSocketAck | src/components/VibeRoom.jsx:672-679 | An ok acknowledgement naming the token confirms the send; anything else changes nothing |
| RoomClient.Room.OnPostOk | src/components/VibeRoom.jsx:694-695 | An HTTP answer confirms the send with the saved row |
| RoomClient.Room.OnPostFailed | src/components/VibeRoom.jsx:696-709 | A failed post of a pending send retries, or on the third failure marks it failed and fetches; a send that is no longer pending is left alone (the corrected retry of `Delivery.PostFailed`) |
| RoomClient.Room.OnRetryTimer | src/components/VibeRoom.jsx:681-708 | A retry posts again, with the recorded attempts, while the send is pending and does nothing once it is not (the corrected retry of `Delivery.RetryAttempts`) |
| Notifications.RecentHearts | src/contexts/NotificationContext.jsx:35-38 | Keeps exactly the hearts dated within the last 24 hours, in order |
| Notifications.RecentRequests | src/contexts/NotificationContext.jsx:62-71 | Keeps exactly the requests with a parseable time within the last 24 hours |
| Notifications.MarkAllRead | src/contexts/NotificationContext.jsx:113 | Every heart is read and otherwise unchanged |
| Notifications.NoneUnreadAfterMark | src/contexts/NotificationContext.jsx:112-116 | After marking, no heart is unread |
| Notifications.PrependHeart | src/contexts/NotificationContext.jsx:203-205 | A pushed heart adds one unread heart exactly when it is not read |
| Notifications.MergeRequests | src/contexts/NotificationContext.jsx:74-81 | The push loop over the previous requests gives `MergeInto` |
| Notifications.MergeKeepsFetched | src/contexts/NotificationContext.jsx:74-81 | The fetched requests come first, unchanged |
| Notifications.MergeIds | src/contexts/NotificationContext.jsx:74-81 | The merge holds an id exactly when the fetched or the previous requests hold it |
| Notifications.MergeMembers | src/contexts/NotificationContext.jsx:74-81 | Every merged entry is fetched, or a previous entry whose id was not fetched |
| Notifications.MergeDistinct | src/contexts/NotificationContext.jsx:74-81 | Fetched requests with distinct ids give a merge with distinct ids |
| Notifications.SortNewest | src/contexts/NotificationContext.jsx:83 | When every request is dated, the sort puts the newest first and keeps every entry |
| Notifications.FetchedRequests | src/contexts/NotificationContext.jsx:62-83 | Every recent fetched request is listed; every listed one is recent and fetched or a previous one not refetched; the ids are those of both lists; dated lists come out newest first |
| Notifications.FetchedDistinct | src/contexts/NotificationContext.jsx:62-83 | A request fetch with distinct ids keeps ids distinct |
| Notifications.Max0 | src/contexts/NotificationContext.jsx:147 | The count is floored at 0 and otherwise unchanged |
| Notifications.WithoutRequest | src/contexts/NotificationContext.jsx:145 | Keeps exactly the entries with another id |
| Notifications.RemovedCount | src/contexts/NotificationContext.jsx:144-147 | The number removed is the number of entries with that id |
| Notifications.RemoveKeepsCount | src/contexts/NotificationContext.jsx:144-148 | While the count agrees with the lists, the floor at 0 never engages |
| Notifications.PushedRequest | src/contexts/NotificationContext.jsx:206-216 | A pushed request keeps its id and its time, or takes the current time when it has none |
| Notifications.NotificationState.constructor | src/contexts/NotificationContext.jsx:15-17 | Empty lists and a zero count, which agree |
| Notifications.NotificationState.FetchHeartNotifications | src/contexts/NotificationContext.jsx:27-50 | A successful fetch replaces the hearts with the recent ones and recounts; otherwise nothing changes; the count keeps agreeing |
| Notifications.NotificationState.FetchChatRequests | src/contexts/NotificationContext.jsx:53-99 | A successful fetch lists the merged requests sorted newest first and recounts; otherwise nothing changes; the count keeps agreeing |
| Notifications.NotificationState.MarkHeartsAsRead | src/contexts/NotificationContext.jsx:102-122 | After an ok answer every heart is read and the count drops by the hearts that were unread |
| Notifications.NotificationState.RemoveAnswered | src/contexts/NotificationContext.jsx:144-149 | After an ok accept or reject (also lines 184-189) the entries with that id go and the count drops by their number, floored at 0 |
| Notifications.NotificationState.AddNotification | src/contexts/NotificationContext.jsx:202-243 | A heart goes first and adds one; a request with a new id goes first and the count is recalculated; a known id or another kind changes nothing |
| Notifications.NotificationState.ClearAllNotifications | src/contexts/NotificationContext.jsx:246-279 | Both lists are emptied and the count zeroed unless both DELETE requests answered with an error, in which case nothing changes |

## Left out

- The Express routing, socket.io transport, CORS and body parsing are not modelled. An emit is an outbox entry, not a delivery.
- The SQL text, the SQLite schema and its migrations are not modelled. Tables are sequences and maps, and each handler runs to completion before the next one starts. The unique index on `(room_id, client_id)` is not part of the schema, so the lookup before insert is the only deduplication, and the model is correct for sequential handlers only.
- The `catch` blocks that answer 500 or emit "Failed to send message" are not modelled: the in-memory tables do not fail.
- Authentication, `validateEmail`, signup, login, users, moods, journal, matches, report and block are not modelled. They are outside the delivery core.
- The heart endpoints and the `send_heart` socket handler (server/index.js:596-662, 1532-1680) are not modelled, nor the request listing and clearing endpoints (server/index.js:2045-2130). The client's heart and request fetches take their answers as parameters.
- `typing_start`, `typing_stop` and the client's typing indicator are not modelled.
- `Date.parse` and its string normalisation are not modelled. Time stamps are integers in milliseconds, and `None` stands for a missing or unparseable one. `toLocaleTimeString` is not modelled: the display time is an opaque string.
- `Math.random` in the client token is not modelled. `Room.Send` takes the token as a parameter and requires it not to be pending already.
- `setTimeout`, `setInterval`, visibility events and the React effect lifecycle are not modelled. Each timer firing and each answer is a method call, and React state updaters are applied at once, in call order.
- sessionStorage caching (except the cleaned cached list at mount), the debug event log, avatar lookups, loading and error flags, scrolling, alerts and console output are not modelled.
- The `!roomId` guards of the client are not modelled: a mounted room always has a room id.
- The client always has a socket. A send with no socket is not modelled.
- Reconcile.Msg: ids are compared structurally (`NumId` or `TokenId`). A JavaScript number id and the same digits as a string are two different ids here, as they are under `===`.
- Merge.IdCompare: `localeCompare` is modelled as code-unit order. The two agree on the ASCII client tokens the client produces.
- Merge.MergeSorted: proved only when every id is numeric. With client tokens present the comparator is not a total order, and the order is not stated.
- Merge.MergeKeepsHeld: requires the cleaned held list to have distinct ids, which `ReceiveKeepsDistinct` shows the receive path keeps.
- Seqs.Sort: a stable insertion sort stands for `Array.prototype.sort`. Only the order it produces and the permutation are relied on.
- RoomClient.Room.OnMessagesResponse: the escalation fetch is the whole-history request `FetchReq(0)`, queued after the merge.
- Notifications.SortNewest: proved only for requests that all carry a time. A request with no time compares as `NaN`, and the comparator is then not an order.
- Notifications.NotificationState.AddNotification: the count is stated to keep agreeing with the lists only for an unread heart. The source always adds 1; a pushed heart carries no `isRead` field, so it is unread.
- Notifications: request ids are integers compared with `===`. A pushed request whose `createdAt` is present but does not parse is not modelled (the push's time is an `Option<int>`).
- Fetch answers are parameters of the methods: `None` stands for a failed or non-ok answer.
- RoomClient.Room.OnPostFailed: follows the corrected `Delivery.PostFailed`, not the code as written. As written, a failure whose send was already confirmed recreates the pending entry and the retry chain goes on (src/components/VibeRoom.jsx:658-709; see "## Findings" and `Delivery.PostFailedAsWritten`).
- RoomClient.Room.OnRetryTimer: follows the corrected `Delivery.RetryAttempts`, not the code as written, which posts again with the entry's attempts or 0 once the entry is gone (`Delivery.RetryAttemptsAsWritten`).
- Sending.SenderName: `substring(0, 30)` can cut a surrogate pair in half and keep the lone high surrogate; a `string` cannot hold that, so `Js.Utf16Prefix` stops before the split character and the name is one code unit shorter.

## Findings

| source | as written | input that shows it | evidently intended | confidence | as-written member | corrected member |
|---|---|---|---|---|---|---|
| src/components/VibeRoom.jsx:658-709 | `markDelivered` sets `delivered` on the pending entry and then deletes the entry, so the `entry?.delivered` check in `sendWithRetry` never sees it. A post that was already in flight then fails, recreates the entry with one attempt, and the retry chain goes on. | The socket acknowledges the send while the first HTTP post is in flight, and the post and both retries fail. The message already carries its server id, yet it ends up `pending: false, failed: true`. A later history fetch with unchanged ids keeps the flag (`Merge.UnchangedIdsKeepFlags`). | A failure or retry of a send that is no longer pending changes nothing, so a confirmed send stays confirmed. | not executed | Delivery.AckedMessageMarkedFailedAsWritten | Delivery.PostFailed, Delivery.ConfirmedNeverFails, Delivery.AckedMessageStaysConfirmed |
